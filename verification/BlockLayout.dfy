/**
  Which blocks the MCUs of a scan consist of: the real blocks of its components, and the dummy blocks that complete
  MCUs at the right and bottom edges of an image.
*/
module BlockLayout {
  import opened Powers
  import opened Coefficients
  import opened RowGroups

  const DCTSIZE: nat := 8
  const C_MAX_BLOCKS_IN_MCU: nat := 10

  /** A component with its sampling factors and its real blocks, by row. */
  datatype Component = Component(h: nat, v: nat, blocks: seq<seq<Block>>) {
    /** The block at a place in a row that has real blocks; right of them, dummies repeat the last DC value. */
    function InRow(row: nat, col: nat): Block
      requires row < |blocks|
    {
      var n := |blocks[row]|;
      if col < n then blocks[row][col] else if n == 0 then Dummy(0) else Dummy(blocks[row][n - 1][0])
    }

    /** The block at a place in the padded component: below, dummies repeat the last DC value of their MCU. */
    function Padded(row: nat, col: nat): Block
      requires h >= 1
    {
      if row < |blocks| then InRow(row, col)
      else if blocks == [] then Dummy(0)
      else Dummy(InRow(|blocks| - 1, col / h * h + (h - 1))[0])
    }
  }

  datatype Image = Image(width: nat, height: nat, maxH: nat, maxV: nat, comps: seq<Component>) {
    predicate Ok() {
      && width > 0 && height > 0 && maxH > 0 && maxV > 0
      && forall i :: 0 <= i < |comps| ==> ComponentOk(comps[i])
    }

    /** width_in_blocks and height_in_blocks. */
    predicate ComponentOk(c: Component)
      requires maxH > 0 && maxV > 0
    {
      && 1 <= c.h && 1 <= c.v
      && |c.blocks| == DivRoundUp(height * c.v, maxV * DCTSIZE)
      && forall r :: 0 <= r < |c.blocks| ==> |c.blocks[r]| == Across(c)
    }

    function Across(c: Component): nat
      requires maxH > 0
    {
      DivRoundUp(width * c.h, maxH * DCTSIZE)
    }

    /** total_iMCU_rows. */
    function Total(): nat
      requires maxV > 0
    {
      DivRoundUp(height, maxV * DCTSIZE)
    }

    /** MCUs in a row of an interleaved scan. */
    function McusAcross(): nat
      requires maxH > 0
    {
      DivRoundUp(width, maxH * DCTSIZE)
    }
  }

  /** All zeros but for the DC value. */
  function Dummy(dc: Coef): Block {
    seq(64, i => if i == 0 then dc else 0)
  }

  /** The components are as high and wide as fits their MCUs. */
  lemma Extent(m: Image, c: Component)
    requires m.Ok() && m.ComponentOk(c)
    ensures (m.Total() - 1) * c.v < |c.blocks| <= m.Total() * c.v && m.Total() >= 1 && |c.blocks| >= 1
    ensures (m.McusAcross() - 1) * c.h < m.Across(c) <= m.McusAcross() * c.h && m.McusAcross() >= 1 && m.Across(c) >= 1
  {
    RoundUpIs(m.height, m.maxV * DCTSIZE);
    RoundUpIs(m.height * c.v, m.maxV * DCTSIZE);
    GroupsBetween(m.height, m.maxV * DCTSIZE, c.v, m.Total(), |c.blocks|);
    RoundUpIs(m.width, m.maxH * DCTSIZE);
    RoundUpIs(m.width * c.h, m.maxH * DCTSIZE);
    GroupsBetween(m.width, m.maxH * DCTSIZE, c.h, m.McusAcross(), m.Across(c));
    MulMonotone(0, m.Total() - 1, c.v);
    MulMonotone(0, m.McusAcross() - 1, c.h);
  }

  /** A scan of some components: with several of them, MCUs are interleaved. */
  datatype Scan = Scan(image: Image, comps: seq<nat>) {
    predicate Ok() {
      && image.Ok() && |comps| >= 1 && (forall i :: 0 <= i < |comps| ==> comps[i] < |image.comps|)
      && (Interleaved() ==> BlocksIn(|comps|) <= C_MAX_BLOCKS_IN_MCU)
    }

    predicate Interleaved() {
      |comps| > 1
    }

    function Comp(i: nat): Component
      requires i < |comps| && comps[i] < |image.comps|
    {
      image.comps[comps[i]]
    }

    /** The blocks of the first n components in an interleaved MCU. */
    function BlocksIn(n: nat): nat
      requires n <= |comps| && forall i :: 0 <= i < |comps| ==> comps[i] < |image.comps|
    {
      if n == 0 then 0 else BlocksIn(n - 1) + Comp(n - 1).h * Comp(n - 1).v
    }

    // ---- per_scan_setup ----

    function McuWidth(i: nat): nat
      requires Ok() && i < |comps|
    {
      if Interleaved() then Comp(i).h else 1
    }

    function McuHeight(i: nat): nat
      requires Ok() && i < |comps|
    {
      if Interleaved() then Comp(i).v else 1
    }

    function McusPerRow(): nat
      requires Ok()
    {
      if Interleaved() then image.McusAcross() else image.Across(Comp(0))
    }

    /** Real blocks in the last MCU of a row. */
    function LastColWidth(i: nat): nat
      requires Ok() && i < |comps|
    {
      if Interleaved() then Rest(image.Across(Comp(i)), Comp(i).h) else 1
    }

    /** Real block rows in the last iMCU row. */
    function LastRowHeight(i: nat): nat
      requires Ok() && i < |comps|
    {
      Rest(|Comp(i).blocks|, Comp(i).v)
    }

    /** MCU_rows_per_iMCU_row. */
    function RowsIn(r: nat): nat
      requires Ok()
    {
      if Interleaved() then 1 else if r < image.Total() - 1 then Comp(0).v else LastRowHeight(0)
    }

    // ---- the MCUs ----

    /** The x-th block of a component in a block row of the MCU at a column. */
    function BlockAt(i: nat, row: nat, col: nat, x: nat): Block
      requires Ok() && i < |comps|
    {
      Comp(i).Padded(row, col * McuWidth(i) + x)
    }

    /** The first n blocks of a component in one block row of an MCU. */
    function RowPart(i: nat, row: nat, col: nat, n: nat): (r: seq<Block>)
      requires Ok() && i < |comps|
      ensures |r| == n
    {
      if n == 0 then [] else RowPart(i, row, col, n - 1) + [BlockAt(i, row, col, n - 1)]
    }

    function RowBlocks(i: nat, row: nat, col: nat): (r: seq<Block>)
      requires Ok() && i < |comps|
      ensures |r| == McuWidth(i)
    {
      RowPart(i, row, col, McuWidth(i))
    }

    /** The first n block rows of a component in an MCU. */
    function CompBlocks(i: nat, row: nat, col: nat, n: nat): (r: seq<Block>)
      requires Ok() && i < |comps|
      ensures |r| == n * McuWidth(i)
    {
      if n == 0 then []
      else
        assert n * McuWidth(i) == (n - 1) * McuWidth(i) + McuWidth(i);
        CompBlocks(i, row, col, n - 1) + RowBlocks(i, row + n - 1, col)
    }

    /** The blocks of the first n components in the MCU at column col of MCU row y of iMCU row r. */
    function McuBlocks(r: nat, y: nat, col: nat, n: nat): seq<Block>
      requires Ok() && n <= |comps|
    {
      if n == 0 then []
      else McuBlocks(r, y, col, n - 1) + CompBlocks(n - 1, r * Comp(n - 1).v + y, col, McuHeight(n - 1))
    }

    function Mcu(r: nat, y: nat, col: nat): seq<Block>
      requires Ok()
    {
      McuBlocks(r, y, col, |comps|)
    }

    /** The first n MCUs of an MCU row, the first y MCU rows of an iMCU row, and the first r iMCU rows. */
    function McuRow(r: nat, y: nat, n: nat): seq<seq<Block>>
      requires Ok()
    {
      if n == 0 then [] else McuRow(r, y, n - 1) + [Mcu(r, y, n - 1)]
    }

    function McuRows(r: nat, y: nat): seq<seq<Block>>
      requires Ok()
    {
      if y == 0 then [] else McuRows(r, y - 1) + McuRow(r, y - 1, McusPerRow())
    }

    function ImcuRows(r: nat): seq<seq<Block>>
      requires Ok()
    {
      if r == 0 then [] else ImcuRows(r - 1) + McuRows(r - 1, RowsIn(r - 1))
    }

    /** All that comes before an MCU in a scan. */
    function Before(r: nat, y: nat, col: nat): seq<seq<Block>>
      requires Ok()
    {
      ImcuRows(r) + McuRows(r, y) + McuRow(r, y, col)
    }
  }

  /** What is left of n in the last of its parts of size d. */
  function Rest(n: nat, d: nat): nat
    requires d > 0
  {
    if n % d == 0 then d else n % d
  }

  lemma RestIs(n: nat, d: nat, parts: int)
    requires d > 0 && (parts - 1) * d < n <= parts * d
    ensures Rest(n, d) == n - (parts - 1) * d && 1 <= Rest(n, d) <= d
  {
    var left := n - (parts - 1) * d;
    assert parts * d == (parts - 1) * d + d;
    if left == d {
      DivModUnique(n, parts, 0, d);
    } else {
      DivModUnique(n, parts - 1, left, d);
    }
  }

  /** In n things, in parts of size d: whether the x-th of a part is there. */
  lemma InPart(n: nat, d: nat, parts: nat, part: nat, x: nat)
    requires d > 0 && (parts - 1) * d < n <= parts * d && part < parts && x < d
    ensures part * d + x < n <==> part < parts - 1 || x < Rest(n, d)
    ensures 1 <= Rest(n, d) <= d
  {
    RestIs(n, d, parts);
    if part < parts - 1 {
      MulMonotone(part + 1, parts - 1, d);
      assert (part + 1) * d == part * d + d;
    }
  }

  /** Which blocks of an MCU are real: those of the first columns of the last MCU in a row. */
  lemma ColReal(s: Scan, i: nat, col: nat, x: nat)
    requires s.Ok() && i < |s.comps| && col < s.McusPerRow() && x < s.McuWidth(i)
    ensures var c, blockcnt := s.Comp(i), if col < s.McusPerRow() - 1 then s.McuWidth(i) else s.LastColWidth(i);
      col * s.McuWidth(i) + x < s.image.Across(c) <==> x < blockcnt
    ensures 1 <= s.LastColWidth(i) <= s.McuWidth(i)
  {
    hide Image.Across, Image.McusAcross, Rest;
    var c := s.Comp(i);
    Extent(s.image, c);
    if s.Interleaved() {
      InPart(s.image.Across(c), c.h, s.image.McusAcross(), col, x);
    } else {
      OnlyComponent(s, i);
    }
  }

  lemma OnlyComponent(s: Scan, i: nat)
    requires s.Ok() && i < |s.comps| && !s.Interleaved()
    ensures i == 0 && s.Comp(i) == s.Comp(0)
  {
  }

  /** Which block rows of an MCU are real: those of the first rows of the last iMCU row. */
  lemma RowReal(s: Scan, i: nat, r: nat, y: nat)
    requires s.Ok() && i < |s.comps| && r < s.image.Total() && y < s.Comp(i).v
    ensures r * s.Comp(i).v + y < |s.Comp(i).blocks| <==> r < s.image.Total() - 1 || y < s.LastRowHeight(i)
    ensures 1 <= s.LastRowHeight(i) <= s.Comp(i).v
  {
    hide Image.Total, Rest;
    var c := s.Comp(i);
    Extent(s.image, c);
    InPart(|c.blocks|, c.v, s.image.Total(), r, y);
  }
}
