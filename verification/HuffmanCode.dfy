/**
  Canonical Huffman codes, after Rec. ITU-T T.81 Annex C: codewords are handed out in order of length,
  each one more than the last, with zeros appended where the length grows.
*/
module HuffmanCode {
  import opened Powers
  import opened BitString

  /** A table as a DHT marker carries it: how many codes of each length 1..16, and the symbols in order of length. */
  datatype Table = Table(bits: seq<nat>, huffval: seq<nat>) {
    predicate WellFormed() {
      && |bits| == 17 && |huffval| == 256
      && (forall l :: 0 <= l < 17 ==> bits[l] < 256)
      && (forall i :: 0 <= i < 256 ==> huffval[i] < 256)
    }

    /** The length of each code. */
    function Sizes(): seq<nat>
      requires WellFormed()
    {
      Expand(bits, 16)
    }
  }

  /** The code lengths up to l, from the number of codes of each length: Figure C.1. */
  function Expand(bits: seq<nat>, l: nat): (r: seq<nat>)
    requires l < |bits|
    ensures forall i :: 0 <= i < |r| ==> 1 <= r[i] <= l
    ensures forall i, j :: 0 <= i < j < |r| ==> r[i] <= r[j]
  {
    if l == 0 then [] else Expand(bits, l - 1) + seq(bits[l], _ => l)
  }

  lemma ExpandStep(bits: seq<nat>, l: nat)
    requires l < |bits|
    ensures if l == 0 then Expand(bits, l) == []
      else Expand(bits, l) == Expand(bits, l - 1) + seq(bits[l], _ => l)
  {
  }

  lemma {:induction false} ExpandPrefix(bits: seq<nat>, l: nat, m: nat)
    requires l <= m < |bits|
    ensures Expand(bits, l) <= Expand(bits, m)
  {
    if l < m {
      ExpandPrefix(bits, l, m - 1);
    }
  }

  /** The share of the code space that codes of the given lengths take, in units of 2^-scale. */
  function Units(s: seq<nat>, scale: nat): nat
    requires forall i :: 0 <= i < |s| ==> s[i] <= scale
  {
    if s == [] then 0 else Units(s[..|s| - 1], scale) + Pow2(scale - s[|s| - 1])
  }

  lemma UnitsSnoc(s: seq<nat>, size: nat, scale: nat)
    requires size <= scale && forall i :: 0 <= i < |s| ==> s[i] <= scale
    ensures Units(s + [size], scale) == Units(s, scale) + Pow2(scale - size)
  {
    hide Pow2;
    assert (s + [size])[..|s|] == s;
  }

  lemma {:induction false} UnitsScale(s: seq<nat>, scale: nat, m: nat)
    requires forall i :: 0 <= i < |s| ==> s[i] <= scale
    ensures Units(s, scale + m) == Units(s, scale) * Pow2(m)
  {
    hide Pow2;
    if s != [] {
      var n := |s| - 1;
      UnitsScale(s[..n], scale, m);
      Pow2Sum(scale - s[n], m);
      Distribute(Units(s[..n], scale), Pow2(scale - s[n]), Pow2(m));
      assert scale + m - s[n] == scale - s[n] + m;
    }
  }

  lemma {:induction false} UnitsMonotone(s: seq<nat>, i: nat, scale: nat)
    requires i <= |s| && forall i :: 0 <= i < |s| ==> s[i] <= scale
    ensures Units(s[..i], scale) <= Units(s, scale)
  {
    hide Pow2;
    if i == |s| {
      assert s[..i] == s;
    } else {
      var n := |s| - 1;
      UnitsMonotone(s[..n], i, scale);
      assert s[..n][..i] == s[..i];
    }
  }

  /** Whether codes fit below one does not depend on the unit. */
  lemma UnitsCompare(s: seq<nat>, scale: nat, m: nat)
    requires forall i :: 0 <= i < |s| ==> s[i] <= scale
    ensures Units(s, scale) < Pow2(scale) <==> Units(s, scale + m) < Pow2(scale + m)
  {
    hide Pow2, Units;
    UnitsScale(s, scale, m);
    Pow2Sum(scale, m);
    MulStrict(Units(s, scale), Pow2(scale), Pow2(m));
  }

  predicate Lengths(s: seq<nat>) {
    && (forall i :: 0 <= i < |s| ==> 1 <= s[i] <= 16)
    && (forall i, j :: 0 <= i < j < |s| ==> s[i] <= s[j])
  }

  /** The codes leave room: they take less than the whole code space. */
  predicate Fits(s: seq<nat>)
    requires Lengths(s)
  {
    Units(s, 16) < 0x10000
  }

  /** The i-th code: the space taken by the codes before it, in units of its own length. */
  function Code(s: seq<nat>, i: nat): nat
    requires Lengths(s) && i < |s|
  {
    Units(s[..i], s[i])
  }

  function Codes(s: seq<nat>): (r: seq<nat>)
    requires Lengths(s)
    ensures |r| == |s| && forall i :: 0 <= i < |s| ==> r[i] == Code(s, i)
  {
    seq(|s|, i requires 0 <= i < |s| => Code(s, i))
  }

  function Codeword(s: seq<nat>, i: nat): (r: seq<Bit>)
    requires Lengths(s) && i < |s|
    ensures |r| == s[i]
  {
    BitsOf(Code(s, i), s[i])
  }

  function Quotient(v: nat, d: nat): nat
    requires d > 0
  {
    v / d
  }

  /** The first l bits of the i-th code. */
  function CodeTop(s: seq<nat>, i: nat, l: nat): nat
    requires Lengths(s) && i < |s| && l <= s[i]
  {
    Quotient(Code(s, i), Pow2(s[i] - l))
  }

  /** The space up to and including the i-th code, at its own scale. */
  lemma NextCode(s: seq<nat>, i: nat)
    requires Lengths(s) && i < |s|
    ensures Units(s[..i + 1], s[i]) == Code(s, i) + 1
  {
    assert s[..i + 1] == s[..i] + [s[i]];
    UnitsSnoc(s[..i], s[i], s[i]);
  }

  /** No code is all ones. */
  lemma CodeBound(s: seq<nat>, i: nat)
    requires Lengths(s) && Fits(s) && i < |s|
    ensures Code(s, i) + 1 < Pow2(s[i])
  {
    hide Pow2, Units, Code;
    NextCode(s, i);
    Pow2Values();
    UnitsMonotone(s, i + 1, 16);
    UnitsCompare(s[..i + 1], s[i], 16 - s[i]);
  }

  lemma NotAllOnes(s: seq<nat>, i: nat)
    requires Lengths(s) && Fits(s) && i < |s|
    ensures Codeword(s, i) != seq(s[i], _ => 1)
  {
    hide Pow2, BitsOf, Code, Fits;
    CodeBound(s, i);
    if Codeword(s, i) == seq(s[i], _ => 1) {
      BitsOfOnes(s[i]);
      BitsUnique(Code(s, i), Pow2(s[i]) - 1, s[i]);
    }
  }

  /** Later codes, cut to the length of an earlier one, are beyond it. */
  lemma LaterCode(s: seq<nat>, i: nat, j: nat)
    requires Lengths(s) && i < j < |s|
    ensures Code(s, j) / Pow2(s[j] - s[i]) > Code(s, i)
  {
    hide Pow2, Units;
    var p := Pow2(s[j] - s[i]);
    NextCode(s, i);
    UnitsScale(s[..i + 1], s[i], s[j] - s[i]);
    UnitsMonotone(s[..j], i + 1, s[j]);
    assert s[..j][..i + 1] == s[..i + 1];
    QuotientAtLeast(Code(s, j), Code(s, i) + 1, p);
  }

  lemma PrefixCode(s: seq<nat>, i: nat, j: nat)
    requires Lengths(s) && Fits(s) && i < |s| && j < |s|
    requires Codeword(s, i) <= Codeword(s, j)
    ensures s[i] <= s[j] && Code(s, i) == Code(s, j) / Pow2(s[j] - s[i])
  {
    hide Pow2, BitsOf, Code, Fits;
    var a, b, d := Code(s, i), Code(s, j), s[j] - s[i];
    CodeBound(s, i);
    CodeBound(s, j);
    BitsSplit(b, s[j], s[i]);
    Pow2Sum(s[i], d);
    assert s[i] + d == s[j];
    QuotientBelow(b, Pow2(s[i]), Pow2(d));
    assert BitsOf(b, s[j])[..s[i]] == BitsOf(a, s[i]);
    BitsUnique(a, b / Pow2(d), s[i]);
  }

  /** No codeword is a prefix of another. */
  lemma PrefixFree(s: seq<nat>, i: nat, j: nat)
    requires Lengths(s) && Fits(s) && i < |s| && j < |s| && i != j
    ensures !(Codeword(s, i) <= Codeword(s, j))
  {
    hide BitsOf, Code, Fits, Codeword;
    if Codeword(s, i) <= Codeword(s, j) {
      PrefixCode(s, i, j);
      if i < j {
        LaterCode(s, i, j);
      } else {
        LaterCode(s, j, i);
      }
    }
  }

  /** Codes of one length are consecutive numbers. */
  lemma {:induction false} Consecutive(s: seq<nat>, i: nat, j: nat)
    requires Lengths(s) && i <= j < |s| && s[i] == s[j]
    ensures Code(s, j) == Code(s, i) + (j - i)
    decreases j - i
  {
    hide Units, Pow2;
    if i < j {
      Consecutive(s, i, j - 1);
      NextCode(s, j - 1);
    }
  }

  /** What jpeg_make_c_derived_tbl accepts. */
  predicate SymbolsOk(symbols: seq<nat>, maxsymbol: nat) {
    && (forall i :: 0 <= i < |symbols| ==> symbols[i] <= maxsymbol)
    && (forall i, j :: 0 <= i < j < |symbols| ==> symbols[i] != symbols[j])
  }

  function MaxSymbol(isDc: bool): nat {
    if isDc then 15 else 255
  }

  lemma SizesLengths(t: Table)
    requires t.WellFormed()
    ensures Lengths(t.Sizes())
  {
  }

  predicate Acceptable(t: Table, isDc: bool) {
    t.WellFormed() && |t.Sizes()| <= 256 && Fits(t.Sizes()) && SymbolsOk(t.huffval[..|t.Sizes()|], MaxSymbol(isDc))
  }
}
