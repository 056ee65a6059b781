/** The coefficient controller of jctrans.c, which makes dummy blocks while it outputs coefficient arrays. */
module TransController {
  import opened Coefficients
  import opened RowGroups
  import opened BlockLayout
  import opened McuAssembly

  class TransController {
    const scan: Scan
    const mcuBuffer: array<Block>
    const dummyBuffer: array<Block> // where dummy blocks are made; AC values stay zero
    var iMCURowNum: nat
    var mcuCtr: nat
    var mcuVertOffset: nat
    var mcuRowsPerIMCURow: nat

    var room: nat                   // MCUs that can be written before a suspension
    var sent: seq<seq<Block>>       // MCUs that have been written

    ghost predicate Sized() {
      scan.Ok() && mcuBuffer.Length == dummyBuffer.Length == C_MAX_BLOCKS_IN_MCU && mcuBuffer != dummyBuffer
    }

    ghost predicate Zeroed()
      reads dummyBuffer
    {
      Sized() && forall k :: 0 <= k < C_MAX_BLOCKS_IN_MCU ==> dummyBuffer[k] == Dummy(dummyBuffer[k][0])
    }

    /** transencode_coef_controller and start_pass_coef. */
    constructor (scan: Scan)
      requires scan.Ok()
      ensures Valid() && fresh(this) && fresh(mcuBuffer) && fresh(dummyBuffer) && this.scan == scan && sent == []
      ensures iMCURowNum == 0 && room == 0
    {
      this.scan := scan;
      mcuBuffer := new Block[C_MAX_BLOCKS_IN_MCU](_ => ZERO_BLOCK);
      dummyBuffer := new Block[C_MAX_BLOCKS_IN_MCU](_ => ZERO_BLOCK);
      iMCURowNum, mcuCtr, mcuVertOffset, mcuRowsPerIMCURow, room, sent := 0, 0, 0, 0, 0, [];
      new;
      StartImcuRow();
      NothingBefore(scan);
      Counts(scan, 0);
      DummyIs(0);
      Extent(scan.image, scan.Comp(0));
    }

    /** The blocks so far, in the MCU buffer. */
    ghost predicate InBuffer(i: nat, y: nat, yindex: nat, col: nat, blkn: nat)
      requires Sized() && i < |scan.comps|
      reads this`iMCURowNum, mcuBuffer
    {
      blkn <= C_MAX_BLOCKS_IN_MCU && InMcu(scan, iMCURowNum, i, y, yindex, col, mcuBuffer[..blkn])
    }

    /** A dummy block behind the others, with the DC value of the one before it. */
    method AddDummy(blkn: nat)
      requires Zeroed() && 1 <= blkn < C_MAX_BLOCKS_IN_MCU
      modifies mcuBuffer, dummyBuffer
      ensures Zeroed() && mcuBuffer[..blkn] == old(mcuBuffer[..blkn]) && mcuBuffer[blkn] == Dummy(mcuBuffer[blkn - 1][0])
    {
      SetDc(dummyBuffer[blkn][0], mcuBuffer[blkn - 1][0]);
      DummyIs(mcuBuffer[blkn - 1][0]);
      dummyBuffer[blkn] := dummyBuffer[blkn][0 := mcuBuffer[blkn - 1][0]];
      mcuBuffer[blkn] := dummyBuffer[blkn];
    }

    /** The blocks of one block row of a component in an MCU: pointers to real ones, then dummies. */
    method TransRow(i: nat, y: nat, yindex: nat, col: nat, blkn0: nat) returns (blkn: nat)
      requires Sized() && Zeroed() && iMCURowNum < scan.image.Total() && y < scan.RowsIn(iMCURowNum)
        && col < scan.McusPerRow()
      requires i < |scan.comps| && yindex < scan.McuHeight(i) && InBuffer(i, y, yindex, col, blkn0)
      modifies mcuBuffer, dummyBuffer
      ensures Zeroed() && blkn == blkn0 + scan.McuWidth(i) && InBuffer(i, y, yindex + 1, col, blkn)
    {
      hide Scan.RowBlocks, Scan.BlockAt, Component.Padded, Scan.McuWidth, Scan.McuHeight, Scan.RowsIn,
        Scan.McusPerRow, Scan.LastColWidth, Scan.LastRowHeight, Image.Total, Scan.McuBlocks, Scan.CompBlocks, Zeroed,
        Scan.Interleaved;
      var row := iMCURowNum * scan.Comp(i).v + y + yindex;
      var blockcnt := if col < scan.McusPerRow() - 1 then scan.McuWidth(i) else scan.LastColWidth(i);
      RowFits(scan, iMCURowNum, y, col, i, yindex);
      RowInside(scan, iMCURowNum, i, y, yindex);
      var xindex := 0;
      blkn := blkn0;
      if iMCURowNum < scan.image.Total() - 1 || yindex + y < scan.LastRowHeight(i) {
        blkn := RealBlocks(i, row, col, blockcnt, blkn0);
        xindex := blockcnt;
      } else {
        RowAbove(scan, iMCURowNum, i, y, yindex, col, mcuBuffer[..blkn0]);
      }
      blkn := AddDummies(i, row, col, blockcnt, blkn0, xindex);
      RowIs(scan, i, row, col, old(mcuBuffer[..blkn0]), mcuBuffer[..blkn]);
      RowDone(scan, iMCURowNum, i, y, yindex, col);
    }

    /** Completes a block row with dummies. */
    method AddDummies(i: nat, row: nat, col: nat, ghost blockcnt: nat, blkn0: nat, xindex0: nat) returns (blkn: nat)
      requires Sized() && Zeroed() && i < |scan.comps| && col < scan.McusPerRow() && xindex0 <= scan.McuWidth(i)
      requires blkn0 + scan.McuWidth(i) <= C_MAX_BLOCKS_IN_MCU
      requires blockcnt == if col < scan.McusPerRow() - 1 then scan.McuWidth(i) else scan.LastColWidth(i)
      requires forall j :: blkn0 <= j < blkn0 + xindex0 ==> mcuBuffer[j] == scan.BlockAt(i, row, col, j - blkn0)
      requires row < |scan.Comp(i).blocks| ==> xindex0 >= blockcnt
      requires row >= |scan.Comp(i).blocks| ==> RowBelow(i, row, col, blkn0)
      modifies mcuBuffer, dummyBuffer
      ensures Zeroed() && blkn == blkn0 + scan.McuWidth(i) && mcuBuffer[..blkn0] == old(mcuBuffer[..blkn0])
      ensures forall j :: blkn0 <= j < blkn ==> mcuBuffer[j] == scan.BlockAt(i, row, col, j - blkn0)
    {
      hide Scan.RowBlocks, Scan.BlockAt, Component.Padded, Scan.McuWidth, Scan.McusPerRow, Scan.LastColWidth, Zeroed;
      var xindex := xindex0;
      blkn := blkn0 + xindex;
      while xindex < scan.McuWidth(i)
        invariant xindex <= scan.McuWidth(i) && blkn == blkn0 + xindex && Zeroed()
        invariant mcuBuffer[..blkn0] == old(mcuBuffer[..blkn0])
        invariant forall j :: blkn0 <= j < blkn ==> mcuBuffer[j] == scan.BlockAt(i, row, col, j - blkn0)
        invariant row < |scan.Comp(i).blocks| ==> xindex >= blockcnt
      {
        NextDummy(i, row, col, xindex, blockcnt, mcuBuffer[..blkn], blkn0);
        AddDummy(blkn);
        blkn := blkn + 1;
        xindex := xindex + 1;
      }
    }

    /** Below the image, the block before a row of dummies is the last one of the row above. */
    ghost predicate RowBelow(i: nat, row: nat, col: nat, blkn0: nat)
      requires Sized() && i < |scan.comps|
      reads mcuBuffer
    {
      && scan.Interleaved() && row >= 1 && 1 <= blkn0 <= C_MAX_BLOCKS_IN_MCU && scan.McuWidth(i) >= 1
      && mcuBuffer[blkn0 - 1] == scan.BlockAt(i, row - 1, col, scan.McuWidth(i) - 1)
    }

    method RealBlocks(i: nat, row: nat, col: nat, blockcnt: nat, blkn0: nat) returns (blkn: nat)
      requires Sized() && i < |scan.comps| && col < scan.McusPerRow() && row < |scan.Comp(i).blocks|
      requires blkn0 + scan.McuWidth(i) <= C_MAX_BLOCKS_IN_MCU
      requires blockcnt == if col < scan.McusPerRow() - 1 then scan.McuWidth(i) else scan.LastColWidth(i)
      modifies mcuBuffer
      ensures 1 <= blockcnt <= scan.McuWidth(i) && blkn == blkn0 + blockcnt
        && mcuBuffer[..blkn0] == old(mcuBuffer[..blkn0])
      ensures forall j :: blkn0 <= j < blkn ==> mcuBuffer[j] == scan.BlockAt(i, row, col, j - blkn0)
    {
      hide Scan.BlockAt, Scan.McuWidth, Scan.McusPerRow, Scan.LastColWidth;
      RealCount(scan, i, row, col, blockcnt);
      var startCol := col * scan.McuWidth(i);
      blkn := blkn0;
      for xindex := 0 to blockcnt
        invariant blkn == blkn0 + xindex && mcuBuffer[..blkn0] == old(mcuBuffer[..blkn0])
        invariant forall j :: blkn0 <= j < blkn ==> mcuBuffer[j] == scan.BlockAt(i, row, col, j - blkn0)
      {
        RealAt(scan, i, row, col, xindex);
        mcuBuffer[blkn] := scan.Comp(i).blocks[row][startCol + xindex];
        blkn := blkn + 1;
      }
    }

    /** What a dummy block of an MCU should be: it repeats the DC value of the block before it. */
    lemma NextDummy(i: nat, row: nat, col: nat, x: nat, blockcnt: nat, blocks: seq<Block>, blkn0: nat)
      requires Sized() && i < |scan.comps| && col < scan.McusPerRow() && x < scan.McuWidth(i) && |blocks| == blkn0 + x
      requires blockcnt == if col < scan.McusPerRow() - 1 then scan.McuWidth(i) else scan.LastColWidth(i)
      requires forall j :: blkn0 <= j < |blocks| ==> blocks[j] == scan.BlockAt(i, row, col, j - blkn0)
      requires row < |scan.Comp(i).blocks| ==> x >= blockcnt
      requires row >= |scan.Comp(i).blocks| ==>
        scan.Interleaved() && row >= 1 && blkn0 >= 1 && scan.McuWidth(i) >= 1
        && blocks[blkn0 - 1] == scan.BlockAt(i, row - 1, col, scan.McuWidth(i) - 1)
      ensures |blocks| >= 1 && scan.BlockAt(i, row, col, x) == Dummy(blocks[|blocks| - 1][0])
    {
      hide Scan.BlockAt, Scan.McuWidth, Scan.McusPerRow, Scan.LastColWidth;
      if row < |scan.Comp(i).blocks| {
        DummyAt(scan, i, row, col, x);
      } else {
        BelowAt(scan, i, row, col, x);
        if x > 0 {
          BelowAt(scan, i, row, col, x - 1);
          DummyIs(blocks[blkn0 - 1][0]);
        }
      }
    }

    method TransMcu(y: nat, col: nat) returns (blkn: nat)
      requires Sized() && iMCURowNum < scan.image.Total() && y < scan.RowsIn(iMCURowNum) && col < scan.McusPerRow()
        && Zeroed()
      modifies mcuBuffer, dummyBuffer
      ensures Zeroed() && blkn <= C_MAX_BLOCKS_IN_MCU && mcuBuffer[..blkn] == scan.Mcu(iMCURowNum, y, col)
    {
      hide Scan.Ok, Scan.RowBlocks, Component.Padded, Scan.McuWidth, Scan.McuHeight, Scan.RowsIn, Scan.McusPerRow,
        Image.Total, Scan.McuBlocks, Scan.CompBlocks;
      blkn := 0;
      NoBlocks(scan, iMCURowNum, y, col);
      for i := 0 to |scan.comps|
        invariant Zeroed() && blkn <= C_MAX_BLOCKS_IN_MCU && mcuBuffer[..blkn] == scan.McuBlocks(iMCURowNum, y, col, i)
      {
        CompStarts(scan, iMCURowNum, i, y, col, mcuBuffer[..blkn]);
        for yindex := 0 to scan.McuHeight(i)
          invariant InBuffer(i, y, yindex, col, blkn) && Zeroed()
        {
          blkn := TransRow(i, y, yindex, col, blkn);
        }
        CompDone(scan, iMCURowNum, i, y, col);
      }
    }

    /** encode_mcu: without room in the output, nothing is done. */
    method EncodeMcu(mcu: seq<Block>) returns (ok: bool)
      modifies this`room, this`sent
      ensures ok == (old(room) > 0)
      ensures if ok then room == old(room) - 1 && sent == old(sent) + [mcu] else room == old(room) && sent == old(sent)
    {
      ok := room > 0;
      if ok {
        room := room - 1;
        sent := sent + [mcu];
      }
    }

    /** start_iMCU_row. */
    method StartImcuRow()
      requires Sized()
      modifies this`mcuCtr, this`mcuVertOffset, this`mcuRowsPerIMCURow
      ensures mcuCtr == mcuVertOffset == 0 && mcuRowsPerIMCURow == scan.RowsIn(iMCURowNum)
    {
      if |scan.comps| > 1 {
        mcuRowsPerIMCURow := 1;
      } else {
        if iMCURowNum < scan.image.Total() - 1 {
          mcuRowsPerIMCURow := scan.Comp(0).v;
        } else {
          mcuRowsPerIMCURow := scan.LastRowHeight(0);
        }
      }
      mcuCtr := 0;
      mcuVertOffset := 0;
    }

    /** Between calls: what has been sent is what comes before the next MCU in the scan. */
    ghost predicate Valid()
      reads this, mcuBuffer, dummyBuffer
    {
      && Sized() && Zeroed() && iMCURowNum <= scan.image.Total()
      && mcuRowsPerIMCURow == scan.RowsIn(iMCURowNum) && mcuVertOffset < mcuRowsPerIMCURow && mcuCtr < scan.McusPerRow()
      && sent == scan.Before(iMCURowNum, mcuVertOffset, mcuCtr)
      && (iMCURowNum == scan.image.Total() ==> sent == scan.ImcuRows(iMCURowNum))
    }

    /** compress_output of jctrans.c. */
    method CompressOutput() returns (ok: bool)
      requires Valid() && iMCURowNum < scan.image.Total()
      modifies this`iMCURowNum, this`mcuCtr, this`mcuVertOffset, this`mcuRowsPerIMCURow, this`room, this`sent,
        mcuBuffer, dummyBuffer
      ensures Valid() && |sent| >= old(|sent|) && |sent| + room == old(|sent| + room) && (!ok ==> room == 0)
      ensures iMCURowNum == old(iMCURowNum) + if ok then 1 else 0
    {
      hide Scan.Ok, Scan.RowsIn, Scan.McusPerRow, Image.Total, Scan.Before, Scan.Mcu;
      var r := iMCURowNum;
      var yoffset := mcuVertOffset;
      while yoffset < mcuRowsPerIMCURow
        invariant yoffset <= mcuRowsPerIMCURow == scan.RowsIn(r) && iMCURowNum == r && mcuCtr < scan.McusPerRow()
        invariant Zeroed() && sent == scan.Before(r, yoffset, mcuCtr) && |sent| >= old(|sent|)
          && |sent| + room == old(|sent| + room)
        invariant yoffset == mcuRowsPerIMCURow ==> mcuCtr == 0
      {
        var col := mcuCtr;
        while col < scan.McusPerRow()
          invariant col <= scan.McusPerRow() && iMCURowNum == r && mcuRowsPerIMCURow == scan.RowsIn(r)
          invariant Zeroed() && sent == scan.Before(r, yoffset, col) && |sent| >= old(|sent|)
            && |sent| + room == old(|sent| + room)
        {
          var n := TransMcu(yoffset, col);
          NextMcu(scan, r, yoffset, col);
          ok := EncodeMcu(mcuBuffer[..n]);
          if !ok {
            mcuVertOffset := yoffset;
            mcuCtr := col;
            return;
          }
          col := col + 1;
        }
        RowEnds(scan, r, yoffset);
        mcuCtr := 0;
        yoffset := yoffset + 1;
      }
      ImcuEnds(scan, r);
      iMCURowNum := iMCURowNum + 1;
      StartImcuRow();
      Counts(scan, iMCURowNum);
      ok := true;
    }
  }
}
