/** How MCUs are put together block row by block row, and scans MCU by MCU. */
module McuAssembly {
  import opened Powers
  import opened Coefficients
  import opened RowGroups
  import opened BlockLayout

  // ---- positions in a scan ----

  lemma NextMcu(s: Scan, r: nat, y: nat, col: nat)
    requires s.Ok()
    ensures s.Before(r, y, col) + [s.Mcu(r, y, col)] == s.Before(r, y, col + 1)
  {
    hide Scan.Mcu, Scan.ImcuRows, Scan.McuRows, Scan.Ok;
  }

  lemma RowEnds(s: Scan, r: nat, y: nat)
    requires s.Ok()
    ensures s.Before(r, y, s.McusPerRow()) == s.Before(r, y + 1, 0)
  {
    hide Scan.ImcuRows, Scan.Ok, Scan.McusPerRow;
    assert s.McuRow(r, y + 1, 0) == [];
  }

  lemma ImcuEnds(s: Scan, r: nat)
    requires s.Ok()
    ensures s.Before(r, s.RowsIn(r), 0) == s.Before(r + 1, 0, 0) == s.ImcuRows(r + 1)
  {
    hide Scan.Ok, Scan.RowsIn;
    assert s.McuRow(r, s.RowsIn(r), 0) == [] && s.McuRows(r + 1, 0) == [] && s.McuRow(r + 1, 0, 0) == [];
  }

  lemma NothingBefore(s: Scan)
    requires s.Ok()
    ensures s.Before(0, 0, 0) == []
  {
    hide Scan.Ok;
  }

  // ---- sizes of MCUs ----

  lemma {:induction false} McuSize(s: Scan, r: nat, y: nat, col: nat, n: nat)
    requires s.Ok() && n <= |s.comps|
    ensures |s.McuBlocks(r, y, col, n)| == if s.Interleaved() then s.BlocksIn(n) else n
  {
    if n > 0 {
      McuSize(s, r, y, col, n - 1);
      assert |s.CompBlocks(n - 1, r * s.Comp(n - 1).v + y, col, s.McuHeight(n - 1))|
        == s.McuHeight(n - 1) * s.McuWidth(n - 1);
      hide Scan.Ok;
    }
  }

  lemma {:induction false} BlocksMonotone(s: Scan, n: nat, k: nat)
    requires s.Ok() && n <= k <= |s.comps|
    ensures s.BlocksIn(n) <= s.BlocksIn(k)
  {
    if n < k {
      BlocksMonotone(s, n, k - 1);
      MulMonotone(0, s.Comp(k - 1).h, s.Comp(k - 1).v);
    }
  }

  /** A block row of a component fits the MCU buffer behind what comes before it. */
  lemma RowFits(s: Scan, r: nat, y: nat, col: nat, i: nat, yindex: nat)
    requires s.Ok() && i < |s.comps| && yindex < s.McuHeight(i)
    ensures |s.McuBlocks(r, y, col, i)| + (yindex + 1) * s.McuWidth(i) <= C_MAX_BLOCKS_IN_MCU
    ensures (yindex + 1) * s.McuWidth(i) == yindex * s.McuWidth(i) + s.McuWidth(i)
  {
    McuSize(s, r, y, col, i);
    if s.Interleaved() {
      BlocksMonotone(s, i + 1, |s.comps|);
      MulMonotone(yindex + 1, s.McuHeight(i), s.McuWidth(i));
      Commute(s.Comp(i).h, s.Comp(i).v);
    } else {
      OnlyComponent(s, i);
    }
  }

  lemma Commute(a: int, b: int)
    ensures a * b == b * a
  {
  }

  // ---- dummy blocks ----

  lemma DummyIs(dc: Coef)
    ensures ZERO_BLOCK[0 := dc] == Dummy(dc) && Dummy(dc)[0] == dc && ZERO_BLOCK == Dummy(0)
  {
  }

  lemma SetDc(a: Coef, dc: Coef)
    ensures Dummy(a)[0 := dc] == Dummy(dc)
  {
  }

  /** Right of the real blocks of a row, each block has the DC value of the one before it. */
  lemma DummyRight(c: Component, row: nat, at: nat)
    requires c.h >= 1 && row < |c.blocks| && 1 <= |c.blocks[row]| <= at
    ensures c.Padded(row, at) == Dummy(c.Padded(row, at - 1)[0])
  {
    if at > |c.blocks[row]| {
      DummyIs(c.blocks[row][|c.blocks[row]| - 1][0]);
    }
  }

  /** Below the real rows, every block of an MCU has the DC value of the last block in the row above. */
  lemma DummyBelow(c: Component, row: nat, mcu: nat, x: nat)
    requires c.h >= 1 && |c.blocks| >= 1 && row >= |c.blocks| && x < c.h
    ensures c.Padded(row, mcu * c.h + x) == Dummy(c.Padded(row - 1, mcu * c.h + (c.h - 1))[0])
  {
    DivModUnique(mcu * c.h + x, mcu, x, c.h);
    DivModUnique(mcu * c.h + (c.h - 1), mcu, c.h - 1, c.h);
    var last := c.InRow(|c.blocks| - 1, mcu * c.h + (c.h - 1));
    DummyIs(last[0]);
  }

  // ---- rows of blocks ----

  lemma {:induction false} RowPartAt(s: Scan, i: nat, row: nat, col: nat, n: nat, x: nat)
    requires s.Ok() && i < |s.comps| && x < n
    ensures s.RowPart(i, row, col, n)[x] == s.BlockAt(i, row, col, x)
  {
    hide Scan.Ok, Scan.BlockAt, Scan.McuWidth;
    if x < n - 1 {
      RowPartAt(s, i, row, col, n - 1, x);
    }
  }

  /** A row of an MCU, known block by block, behind what came before it in a buffer. */
  lemma RowIs(s: Scan, i: nat, row: nat, col: nat, before: seq<Block>, all: seq<Block>)
    requires s.Ok() && i < |s.comps| && |all| == |before| + s.McuWidth(i) && before == all[..|before|]
    requires forall j :: |before| <= j < |all| ==> all[j] == s.BlockAt(i, row, col, j - |before|)
    ensures all == before + s.RowBlocks(i, row, col)
  {
    hide Scan.Ok, Scan.BlockAt, Scan.McuWidth;
    forall j | |before| <= j < |all|
      ensures all[j] == (before + s.RowBlocks(i, row, col))[j]
    {
      RowPartAt(s, i, row, col, s.McuWidth(i), j - |before|);
    }
  }

  lemma RealCount(s: Scan, i: nat, row: nat, col: nat, blockcnt: nat)
    requires s.Ok() && i < |s.comps| && col < s.McusPerRow() && row < |s.Comp(i).blocks|
    requires blockcnt == if col < s.McusPerRow() - 1 then s.McuWidth(i) else s.LastColWidth(i)
    ensures var w := s.McuWidth(i);
      1 <= blockcnt <= w && col * w + blockcnt <= |s.Comp(i).blocks[row]| == s.image.Across(s.Comp(i))
  {
    hide Scan.LastColWidth, Scan.McuWidth, Scan.McusPerRow, Image.Across;
    WidthPositive(s, i);
    ColReal(s, i, col, 0);
    ColReal(s, i, col, blockcnt - 1);
  }

  lemma RealAt(s: Scan, i: nat, row: nat, col: nat, x: nat)
    requires s.Ok() && i < |s.comps| && row < |s.Comp(i).blocks|
    requires col * s.McuWidth(i) + x < |s.Comp(i).blocks[row]|
    ensures s.BlockAt(i, row, col, x) == s.Comp(i).blocks[row][col * s.McuWidth(i) + x]
  {
    hide Scan.McuWidth;
  }

  lemma DummyAt(s: Scan, i: nat, row: nat, col: nat, x: nat)
    requires s.Ok() && i < |s.comps| && col < s.McusPerRow() && row < |s.Comp(i).blocks|
    requires (if col < s.McusPerRow() - 1 then s.McuWidth(i) else s.LastColWidth(i)) <= x < s.McuWidth(i)
    ensures x >= 1 && s.BlockAt(i, row, col, x) == Dummy(s.BlockAt(i, row, col, x - 1)[0])
  {
    hide Scan.LastColWidth, Scan.McuWidth, Scan.McusPerRow, Image.Across, Component.Padded;
    ColReal(s, i, col, x);
    WidthPositive(s, i);
    Extent(s.image, s.Comp(i));
    DummyRight(s.Comp(i), row, col * s.McuWidth(i) + x);
  }

  lemma BelowAt(s: Scan, i: nat, row: nat, col: nat, x: nat)
    requires s.Ok() && i < |s.comps| && s.Interleaved() && x < s.McuWidth(i) && |s.Comp(i).blocks| <= row
    ensures row >= 1 && s.BlockAt(i, row, col, x) == Dummy(s.BlockAt(i, row - 1, col, s.McuWidth(i) - 1)[0])
  {
    hide Component.Padded;
    WidthPositive(s, i);
    Extent(s.image, s.Comp(i));
    DummyBelow(s.Comp(i), row, col, x);
  }

  /** The blocks so far are those of the components before the i-th, and of its first block rows. */
  predicate InMcu(s: Scan, r: nat, i: nat, y: nat, yindex: nat, col: nat, blocks: seq<Block>)
    requires s.Ok() && i < |s.comps|
  {
    && |blocks| == |s.McuBlocks(r, y, col, i)| + yindex * s.McuWidth(i) <= C_MAX_BLOCKS_IN_MCU
    && blocks == s.McuBlocks(r, y, col, i) + s.CompBlocks(i, r * s.Comp(i).v + y, col, yindex)
  }

  lemma RowInside(s: Scan, r: nat, i: nat, y: nat, yindex: nat)
    requires s.Ok() && r < s.image.Total() && y < s.RowsIn(r)
    requires i < |s.comps| && yindex < s.McuHeight(i)
    ensures var row := r * s.Comp(i).v + (y + yindex);
      row < |s.Comp(i).blocks| <==> r < s.image.Total() - 1 || y + yindex < s.LastRowHeight(i)
    ensures !(r < s.image.Total() - 1 || y + yindex < s.LastRowHeight(i)) ==> s.Interleaved() && yindex >= 1
  {
    hide Image.Total, Scan.LastRowHeight;
    RowReal(s, i, r, 0);
    if !s.Interleaved() {
      OnlyComponent(s, i);
    }
    RowReal(s, i, r, y + yindex);
  }

  /** The last block so far is the last one of the block row above. */
  lemma RowAbove(s: Scan, r: nat, i: nat, y: nat, yindex: nat, col: nat, blocks: seq<Block>)
    requires s.Ok() && i < |s.comps| && yindex >= 1 && InMcu(s, r, i, y, yindex, col, blocks)
    ensures s.McuWidth(i) >= 1 && |blocks| >= 1
    ensures blocks[|blocks| - 1]
      == s.BlockAt(i, r * s.Comp(i).v + y + yindex - 1, col, s.McuWidth(i) - 1)
  {
    hide Scan.McuBlocks, Scan.BlockAt;
    WidthPositive(s, i);
    hide Scan.McuWidth, Scan.Ok;
    var row := r * s.Comp(i).v + y;
    assert s.CompBlocks(i, row, col, yindex)
        == s.CompBlocks(i, row, col, yindex - 1) + s.RowBlocks(i, row + yindex - 1, col);
    RowPartAt(s, i, row + yindex - 1, col, s.McuWidth(i), s.McuWidth(i) - 1);
  }

  lemma RowDone(s: Scan, r: nat, i: nat, y: nat, yindex: nat, col: nat)
    requires s.Ok() && i < |s.comps|
    ensures var row := r * s.Comp(i).v + y;
      s.CompBlocks(i, row, col, yindex + 1) == s.CompBlocks(i, row, col, yindex) + s.RowBlocks(i, row + yindex, col)
  {
    hide Scan.RowBlocks, Scan.Ok;
  }

  lemma NoBlocks(s: Scan, r: nat, y: nat, col: nat)
    requires s.Ok()
    ensures s.McuBlocks(r, y, col, 0) == []
  {
  }

  lemma CompStarts(s: Scan, r: nat, i: nat, y: nat, col: nat, blocks: seq<Block>)
    requires s.Ok() && i < |s.comps| && |blocks| <= C_MAX_BLOCKS_IN_MCU
    requires blocks == s.McuBlocks(r, y, col, i)
    ensures InMcu(s, r, i, y, 0, col, blocks)
  {
    hide Scan.McuBlocks;
  }

  lemma CompDone(s: Scan, r: nat, i: nat, y: nat, col: nat)
    requires s.Ok() && i < |s.comps|
    ensures s.McuBlocks(r, y, col, i + 1)
         == s.McuBlocks(r, y, col, i)
            + s.CompBlocks(i, r * s.Comp(i).v + y, col, s.McuHeight(i))
  {
    hide Scan.CompBlocks;
  }

  lemma Counts(s: Scan, r: nat)
    requires s.Ok()
    ensures s.RowsIn(r) >= 1 && s.McusPerRow() >= 1
  {
    WidthPositive(s, 0);
    Extent(s.image, s.Comp(0));
    RowReal(s, 0, 0, 0);
  }

  lemma McuInRow(k: nat, n: nat, h: nat)
    requires k < n
    ensures k * h + h <= n * h && (k + 1) * h == k * h + h
  {
    MulMonotone(k + 1, n, h);
  }

  lemma WidthPositive(s: Scan, i: nat)
    requires s.Ok() && i < |s.comps|
    ensures s.McuWidth(i) >= 1 && s.McuHeight(i) >= 1 && s.Comp(i).h >= 1 && s.Comp(i).v >= 1
    ensures s.image.ComponentOk(s.Comp(i))
  {
  }
}
