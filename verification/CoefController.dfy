/**
  The coefficient controller of jccoefct.c: compress_data, compress_first_pass and compress_output. Whatever
  suspensions interrupt them, they hand the same MCUs to the entropy encoder.
*/
module CoefController {
  import opened Powers
  import opened Coefficients
  import opened RowGroups
  import opened BlockLayout
  import opened McuAssembly

  class CoefController {
    const scan: Scan
    const mcuBuffer: array<Block>
    var iMCURowNum: nat             // iMCU row within the image
    var mcuCtr: nat                 // MCUs processed in the current row
    var mcuVertOffset: nat          // MCU rows within the iMCU row
    var mcuRowsPerIMCURow: nat
    var wholeImage: seq<seq<seq<Block>>>    // virtual arrays of all components, padded

    var room: nat                   // MCUs that can be written before a suspension
    var sent: seq<seq<Block>>       // MCUs that have been written

    ghost predicate Sized()
    {
      scan.Ok() && mcuBuffer.Length == C_MAX_BLOCKS_IN_MCU
    }

    /** jinit_c_coef_controller and start_pass_coef, with arrays of what earlier passes left in them. */
    constructor (scan: Scan, wholeImage: seq<seq<seq<Block>>>)
      requires scan.Ok()
      ensures Valid() && fresh(this) && fresh(mcuBuffer) && this.scan == scan && this.wholeImage == wholeImage
      ensures iMCURowNum == 0 && sent == [] && room == 0
    {
      this.scan, this.wholeImage := scan, wholeImage;
      mcuBuffer := new Block[C_MAX_BLOCKS_IN_MCU](_ => ZERO_BLOCK);
      iMCURowNum, mcuCtr, mcuVertOffset, mcuRowsPerIMCURow, room, sent := 0, 0, 0, 0, 0, [];
      new;
      StartImcuRow();
      NothingBefore(scan);
      Counts(scan, 0);
      Extent(scan.image, scan.Comp(0));
    }

    /** forward_DCT: real blocks of a row into the MCU buffer. */
    method ForwardDct(i: nat, row: nat, at: nat, blkn: nat, n: nat)
      requires Sized() && i < |scan.comps| && blkn + n <= C_MAX_BLOCKS_IN_MCU
      requires row < |scan.Comp(i).blocks| && at + n <= |scan.Comp(i).blocks[row]|
      modifies mcuBuffer
      ensures forall j :: 0 <= j < blkn ==> mcuBuffer[j] == old(mcuBuffer[j])
      ensures forall j :: blkn <= j < blkn + n ==> mcuBuffer[j] == scan.Comp(i).blocks[row][at + (j - blkn)]
    {
      for x := 0 to n
        invariant forall j :: 0 <= j < blkn ==> mcuBuffer[j] == old(mcuBuffer[j])
        invariant forall j :: blkn <= j < blkn + x ==> mcuBuffer[j] == scan.Comp(i).blocks[row][at + (j - blkn)]
      {
        mcuBuffer[blkn + x] := scan.Comp(i).blocks[row][at + x];
      }
    }

    method Zero(blkn: nat, n: nat)
      requires Sized() && blkn + n <= C_MAX_BLOCKS_IN_MCU
      modifies mcuBuffer
      ensures forall j :: 0 <= j < C_MAX_BLOCKS_IN_MCU ==>
        mcuBuffer[j] == if blkn <= j < blkn + n then ZERO_BLOCK else old(mcuBuffer[j])
    {
      for x := 0 to n
        invariant forall j :: 0 <= j < C_MAX_BLOCKS_IN_MCU ==>
          mcuBuffer[j] == if blkn <= j < blkn + x then ZERO_BLOCK else old(mcuBuffer[j])
      {
        mcuBuffer[blkn + x] := ZERO_BLOCK;
      }
    }

    /** One block row of a component: real blocks, then dummies if the image ends in this MCU. */
    method RealRow(i: nat, row: nat, col: nat, blockcnt: nat, blkn: nat)
      requires Sized() && i < |scan.comps| && col < scan.McusPerRow() && blkn + scan.McuWidth(i) <= C_MAX_BLOCKS_IN_MCU
      requires row < |scan.Comp(i).blocks|
      requires blockcnt == if col < scan.McusPerRow() - 1 then scan.McuWidth(i) else scan.LastColWidth(i)
      modifies mcuBuffer
      ensures mcuBuffer[..blkn + scan.McuWidth(i)] == old(mcuBuffer[..blkn]) + scan.RowBlocks(i, row, col)
    {
      hide Scan.Ok, Scan.RowBlocks, Component.Padded, Scan.McusPerRow, Scan.LastColWidth, Scan.McuWidth;
      var w := scan.McuWidth(i);
      RealCount(scan, i, row, col, blockcnt);
      ForwardDct(i, row, col * w, blkn, blockcnt);
      forall j | blkn <= j < blkn + blockcnt
        ensures mcuBuffer[j] == scan.BlockAt(i, row, col, j - blkn)
      {
        RealAt(scan, i, row, col, j - blkn);
      }
      if blockcnt < w {
        Zero(blkn + blockcnt, w - blockcnt);
        for bi := blockcnt to w
          invariant forall j :: 0 <= j < blkn ==> mcuBuffer[j] == old(mcuBuffer[j])
          invariant forall j :: blkn <= j < blkn + bi ==> mcuBuffer[j] == scan.BlockAt(i, row, col, j - blkn)
          invariant forall j :: blkn + bi <= j < blkn + w ==> mcuBuffer[j] == ZERO_BLOCK
        {
          DummyAt(scan, i, row, col, bi);
          DummyIs(mcuBuffer[blkn + bi - 1][0]);
          mcuBuffer[blkn + bi] := mcuBuffer[blkn + bi][0 := mcuBuffer[blkn + bi - 1][0]];
        }
      }
      RowIs(scan, i, row, col, old(mcuBuffer[..blkn]), mcuBuffer[..blkn + w]);
    }

    /** A block row below the image: dummies with the DC value of the block before them. */
    method DummyRow(i: nat, row: nat, col: nat, blkn: nat)
      requires Sized() && i < |scan.comps| && 1 <= blkn && blkn + scan.McuWidth(i) <= C_MAX_BLOCKS_IN_MCU
      requires scan.Interleaved() && |scan.Comp(i).blocks| <= row
      requires 1 <= row && 1 <= scan.McuWidth(i)
        && mcuBuffer[blkn - 1] == scan.BlockAt(i, row - 1, col, scan.McuWidth(i) - 1)
      modifies mcuBuffer
      ensures mcuBuffer[..blkn + scan.McuWidth(i)] == old(mcuBuffer[..blkn]) + scan.RowBlocks(i, row, col)
    {
      hide Scan.Ok, Scan.RowBlocks, Scan.BlockAt, Component.Padded, Scan.McuWidth;
      var w := scan.McuWidth(i);
      Zero(blkn, w);
      for bi := 0 to w
        invariant forall j :: 0 <= j < blkn ==> mcuBuffer[j] == old(mcuBuffer[j])
        invariant forall j :: blkn <= j < blkn + bi ==> mcuBuffer[j] == scan.BlockAt(i, row, col, j - blkn)
        invariant forall j :: blkn + bi <= j < blkn + w ==> mcuBuffer[j] == ZERO_BLOCK
      {
        BelowAt(scan, i, row, col, bi);
        DummyIs(mcuBuffer[blkn - 1][0]);
        mcuBuffer[blkn + bi] := mcuBuffer[blkn + bi][0 := mcuBuffer[blkn - 1][0]];
      }
      RowIs(scan, i, row, col, old(mcuBuffer[..blkn]), mcuBuffer[..blkn + w]);
    }

    /** The blocks so far, in the MCU buffer. */
    ghost predicate InBuffer(i: nat, y: nat, yindex: nat, col: nat, blkn: nat)
      requires Sized() && i < |scan.comps|
      reads this`iMCURowNum, mcuBuffer
    {
      blkn <= C_MAX_BLOCKS_IN_MCU && InMcu(scan, iMCURowNum, i, y, yindex, col, mcuBuffer[..blkn])
    }

    /** The next block row of a component in an MCU. */
    method MakeRow(i: nat, y: nat, yindex: nat, col: nat, blkn: nat)
      requires Sized() && iMCURowNum < scan.image.Total() && y < scan.RowsIn(iMCURowNum) && col < scan.McusPerRow()
      requires i < |scan.comps| && yindex < scan.McuHeight(i) && InBuffer(i, y, yindex, col, blkn)
      modifies mcuBuffer
      ensures InBuffer(i, y, yindex + 1, col, blkn + scan.McuWidth(i))
    {
      hide Scan.RowBlocks, Scan.BlockAt, Component.Padded, Scan.McuWidth, Scan.McuHeight, Scan.RowsIn,
        Scan.McusPerRow, Scan.LastColWidth, Scan.LastRowHeight, Image.Total, Scan.McuBlocks, Scan.CompBlocks;
      var row := iMCURowNum * scan.Comp(i).v + (y + yindex);
      RowFits(scan, iMCURowNum, y, col, i, yindex);
      RowInside(scan, iMCURowNum, i, y, yindex);
      var blockcnt := if col < scan.McusPerRow() - 1 then scan.McuWidth(i) else scan.LastColWidth(i);
      if iMCURowNum < scan.image.Total() - 1 || y + yindex < scan.LastRowHeight(i) {
        RealRow(i, row, col, blockcnt, blkn);
      } else {
        RowAbove(scan, iMCURowNum, i, y, yindex, col, mcuBuffer[..blkn]);
        DummyRow(i, row, col, blkn);
      }
      RowDone(scan, iMCURowNum, i, y, yindex, col);
    }

    /** The blocks of an MCU, as compress_data makes them. */
    method MakeMcu(y: nat, col: nat) returns (blkn: nat)
      requires Sized() && iMCURowNum < scan.image.Total() && y < scan.RowsIn(iMCURowNum) && col < scan.McusPerRow()
      modifies mcuBuffer
      ensures blkn <= C_MAX_BLOCKS_IN_MCU && mcuBuffer[..blkn] == scan.Mcu(iMCURowNum, y, col)
    {
      hide Scan.Ok, Scan.RowBlocks, Component.Padded, Scan.McuWidth, Scan.McuHeight, Scan.RowsIn, Scan.McusPerRow,
        Image.Total, Scan.McuBlocks, Scan.CompBlocks;
      blkn := 0;
      NoBlocks(scan, iMCURowNum, y, col);
      for i := 0 to |scan.comps|
        invariant blkn <= C_MAX_BLOCKS_IN_MCU && mcuBuffer[..blkn] == scan.McuBlocks(iMCURowNum, y, col, i)
      {
        CompStarts(scan, iMCURowNum, i, y, col, mcuBuffer[..blkn]);
        for yindex := 0 to scan.McuHeight(i)
          invariant InBuffer(i, y, yindex, col, blkn)
        {
          MakeRow(i, y, yindex, col, blkn);
          blkn := blkn + scan.McuWidth(i);
        }
        CompDone(scan, iMCURowNum, i, y, col);
      }
    }

    // ---- MCUs to the entropy encoder ----

    /** encode_mcu: without room in the output, nothing is done. */
    method EncodeMcu(mcu: seq<Block>) returns (ok: bool)
      modifies this`room, this`sent
      ensures ok == (old(room) > 0)
      ensures if ok then room == old(room) - 1 && sent == old(sent) + [mcu] else room == old(room) && sent == old(sent)
    {
      ok := room > 0;
      if ok {
        room := room - 1;
        sent := sent + [mcu];
      }
    }

    /** start_iMCU_row. */
    method StartImcuRow()
      requires Sized()
      modifies this`mcuCtr, this`mcuVertOffset, this`mcuRowsPerIMCURow
      ensures mcuCtr == mcuVertOffset == 0 && mcuRowsPerIMCURow == scan.RowsIn(iMCURowNum)
    {
      if |scan.comps| > 1 {
        mcuRowsPerIMCURow := 1;
      } else {
        if iMCURowNum < scan.image.Total() - 1 {
          mcuRowsPerIMCURow := scan.Comp(0).v;
        } else {
          mcuRowsPerIMCURow := scan.LastRowHeight(0);
        }
      }
      mcuCtr := 0;
      mcuVertOffset := 0;
    }

    /** Between calls: what has been sent is what comes before the next MCU in the scan. */
    ghost predicate Valid()
      reads this, mcuBuffer
    {
      && Sized() && iMCURowNum <= scan.image.Total()
      && mcuRowsPerIMCURow == scan.RowsIn(iMCURowNum) && mcuVertOffset < mcuRowsPerIMCURow && mcuCtr < scan.McusPerRow()
      && sent == scan.Before(iMCURowNum, mcuVertOffset, mcuCtr)
      && (iMCURowNum == scan.image.Total() ==> sent == scan.ImcuRows(iMCURowNum))
    }

    /** Single-pass compression of an iMCU row, or of what is left of it. */
    method CompressData() returns (ok: bool)
      requires Valid() && iMCURowNum < scan.image.Total()
      modifies this`iMCURowNum, this`mcuCtr, this`mcuVertOffset, this`mcuRowsPerIMCURow, this`room, this`sent, mcuBuffer
      ensures Valid() && |sent| >= old(|sent|) && |sent| + room == old(|sent| + room) && (!ok ==> room == 0)
      ensures iMCURowNum == old(iMCURowNum) + if ok then 1 else 0
    {
      hide Scan.Ok, Scan.RowsIn, Scan.McusPerRow, Image.Total, Scan.Before, Scan.Mcu;
      var r := iMCURowNum;
      var yoffset := mcuVertOffset;
      while yoffset < mcuRowsPerIMCURow
        invariant yoffset <= mcuRowsPerIMCURow == scan.RowsIn(r) && iMCURowNum == r && mcuCtr < scan.McusPerRow()
        invariant sent == scan.Before(r, yoffset, mcuCtr) && |sent| >= old(|sent|) && |sent| + room == old(|sent| + room)
        invariant yoffset == mcuRowsPerIMCURow ==> mcuCtr == 0
      {
        var col := mcuCtr;
        while col < scan.McusPerRow()
          invariant col <= scan.McusPerRow() && iMCURowNum == r && mcuRowsPerIMCURow == scan.RowsIn(r)
          invariant sent == scan.Before(r, yoffset, col) && |sent| >= old(|sent|) && |sent| + room == old(|sent| + room)
        {
          var n := MakeMcu(yoffset, col);
          NextMcu(scan, r, yoffset, col);
          ok := EncodeMcu(mcuBuffer[..n]);
          if !ok {
            mcuVertOffset := yoffset;
            mcuCtr := col;
            return;
          }
          col := col + 1;
        }
        RowEnds(scan, r, yoffset);
        mcuCtr := 0;
        yoffset := yoffset + 1;
      }
      ImcuEnds(scan, r);
      iMCURowNum := iMCURowNum + 1;
      StartImcuRow();
      Counts(scan, iMCURowNum);
      ok := true;
    }

    // ---- the virtual arrays ----

    ghost predicate Allocated()
      requires Sized()
      reads this`wholeImage
    {
      && |wholeImage| == |scan.image.comps|
      && forall c :: 0 <= c < |wholeImage| ==> ArrayOk(scan.image.comps[c], wholeImage[c])
    }

    ghost predicate ArrayOk(c: Component, rows: seq<seq<Block>>)
      requires Sized()
    {
      |rows| == scan.image.Total() * c.v && forall r :: 0 <= r < |rows| ==> |rows[r]| == scan.image.McusAcross() * c.h
    }

    /** The first n rows of a virtual array are those of the padded component. */
    ghost predicate Stored(c: Component, rows: seq<seq<Block>>, n: nat)
      requires Sized() && c.h >= 1
    {
      n <= |rows| && forall r :: 0 <= r < n ==> IsPadded(c, r, rows[r])
    }

    ghost predicate IsPadded(c: Component, r: nat, row: seq<Block>)
      requires Sized() && c.h >= 1
    {
      |row| == scan.image.McusAcross() * c.h && forall col :: 0 <= col < |row| ==> row[col] == c.Padded(r, col)
    }

    /** The first n iMCU rows of all components are stored. */
    ghost predicate AllStored(n: nat)
      requires Sized()
      reads this`wholeImage
    {
      && Allocated()
      && forall c :: 0 <= c < |wholeImage| ==>
           scan.image.comps[c].h >= 1 && Stored(scan.image.comps[c], wholeImage[c], n * scan.image.comps[c].v)
    }

    /** A row of real blocks, with dummies at its right end. */
    method RealBlockRow(c: Component, row: nat, ndummy: nat) returns (blocks: seq<Block>)
      requires Sized() && scan.image.ComponentOk(c) && row < |c.blocks|
      requires scan.image.Across(c) + ndummy == scan.image.McusAcross() * c.h
      ensures IsPadded(c, row, blocks)
    {
      hide Component.Padded, Image.McusAcross;
      Extent(scan.image, c);
      var across := scan.image.Across(c);
      var thisblockrow := new Block[across + ndummy](_ => ZERO_BLOCK);
      for col := 0 to across
        invariant forall k :: 0 <= k < col ==> thisblockrow[k] == c.blocks[row][k]
        invariant forall k :: col <= k < across + ndummy ==> thisblockrow[k] == ZERO_BLOCK
      {
        thisblockrow[col] := c.blocks[row][col];
      }
      if ndummy > 0 {
        var lastDC := thisblockrow[across - 1][0];
        for bi := 0 to ndummy
          invariant forall k :: 0 <= k < across ==> thisblockrow[k] == c.blocks[row][k]
          invariant forall k :: across <= k < across + bi ==> thisblockrow[k] == Dummy(lastDC)
          invariant forall k :: across + bi <= k < across + ndummy ==> thisblockrow[k] == ZERO_BLOCK
        {
          DummyIs(lastDC);
          thisblockrow[across + bi] := thisblockrow[across + bi][0 := lastDC];
        }
      }
      blocks := thisblockrow[..];
      RowOfReal(c, row);
    }

    lemma RowOfReal(c: Component, row: nat)
      requires Sized() && scan.image.ComponentOk(c) && row < |c.blocks|
      ensures var across := scan.image.Across(c);
        && |c.blocks[row]| == across >= 1
        && forall col: nat :: c.Padded(row, col) == if col < across then c.blocks[row][col]
          else Dummy(c.blocks[row][across - 1][0])
    {
      Extent(scan.image, c);
    }

    /** A row of dummies below the image: in each MCU the last DC value of the row above. */
    method DummyBlockRow(c: Component, row: nat, lastblockrow: seq<Block>) returns (blocks: seq<Block>)
      requires Sized() && scan.image.ComponentOk(c) && 1 <= |c.blocks| <= row && IsPadded(c, row - 1, lastblockrow)
      ensures IsPadded(c, row, blocks)
    {
      hide Component.Padded, Image.McusAcross, Image.Across, Filled;
      var mcusAcross := scan.image.McusAcross();
      var thisblockrow := new Block[mcusAcross * c.h](_ => ZERO_BLOCK);
      var start := 0;
      StartFilled(c, row, thisblockrow[..]);
      for mcuIndex := 0 to mcusAcross
        invariant start == mcuIndex * c.h && Filled(c, row, thisblockrow[..], start)
      {
        McuInRow(mcuIndex, mcusAcross, c.h);
        DummyMcu(c, row, thisblockrow, lastblockrow, start, mcuIndex);
        start := start + c.h;
      }
      blocks := thisblockrow[..];
      AllFilled(c, row, blocks);
    }

    /** The first n blocks of a row are made, the others are zero. */
    predicate Filled(c: Component, row: nat, blocks: seq<Block>, n: nat)
      requires c.h >= 1
    {
      && n <= |blocks| && (forall k :: 0 <= k < n ==> blocks[k] == c.Padded(row, k))
      && forall k :: n <= k < |blocks| ==> blocks[k] == Dummy(0)
    }

    lemma StartFilled(c: Component, row: nat, blocks: seq<Block>)
      requires c.h >= 1 && forall k :: 0 <= k < |blocks| ==> blocks[k] == ZERO_BLOCK
      ensures Filled(c, row, blocks, 0)
    {
      DummyIs(0);
    }

    lemma AllFilled(c: Component, row: nat, blocks: seq<Block>)
      requires Sized() && c.h >= 1 && |blocks| == scan.image.McusAcross() * c.h && Filled(c, row, blocks, |blocks|)
      ensures IsPadded(c, row, blocks)
    {
      hide Image.McusAcross, Component.Padded;
    }

    /** The dummies of one MCU in a row below the image. */
    method DummyMcu(c: Component, row: nat, thisblockrow: array<Block>, lastblockrow: seq<Block>, start: nat,
                    ghost mcuIndex: nat)
      requires Sized() && scan.image.ComponentOk(c) && 1 <= |c.blocks| <= row && start == mcuIndex * c.h
      requires thisblockrow.Length == |lastblockrow| && start + c.h <= |lastblockrow|
      requires IsPadded(c, row - 1, lastblockrow) && Filled(c, row, thisblockrow[..], start)
      modifies thisblockrow
      ensures Filled(c, row, thisblockrow[..], start + c.h)
    {
      hide Component.Padded, Image.Across, Image.McusAcross;
      var lastDC := lastblockrow[start + (c.h - 1)][0];
      for bi := 0 to c.h
        invariant Filled(c, row, thisblockrow[..], start + bi)
      {
        DummyBelow(c, row, mcuIndex, bi);
        SetDc(0, lastDC);
        thisblockrow[start + bi] := thisblockrow[start + bi][0 := lastDC];
      }
    }

    // ---- the first pass ----

    /** All block rows of an iMCU row of one component into its virtual array. */
    method LoadComponent(ci: nat)
      requires Sized() && ci < |scan.image.comps| && iMCURowNum < scan.image.Total() && Allocated()
      requires Stored(scan.image.comps[ci], wholeImage[ci], iMCURowNum * scan.image.comps[ci].v)
      modifies this`wholeImage
      ensures Allocated() && Stored(scan.image.comps[ci], wholeImage[ci], (iMCURowNum + 1) * scan.image.comps[ci].v)
      ensures forall c :: 0 <= c < |wholeImage| && c != ci ==> wholeImage[c] == old(wholeImage[c])
    {
      hide Image.Total, Image.McusAcross, Image.Across, IsPadded, Rest;
      var c := scan.image.comps[ci];
      var first := iMCURowNum * c.v;
      LastRows(c, iMCURowNum);
      var blockRows := if iMCURowNum < scan.image.Total() - 1 then c.v else Rest(|c.blocks|, c.v);
      var blocksAcross := scan.image.Across(c);
      var ndummy := blocksAcross % c.h;
      if ndummy > 0 {
        ndummy := c.h - ndummy;
      }
      DummyCount(c);
      for blockRow := 0 to blockRows
        invariant Allocated() && Stored(c, wholeImage[ci], first + blockRow)
        invariant forall c :: 0 <= c < |wholeImage| && c != ci ==> wholeImage[c] == old(wholeImage[c])
      {
        var row := RealBlockRow(c, first + blockRow, ndummy);
        StoreRow(ci, first + blockRow, row);
      }
      if iMCURowNum == scan.image.Total() - 1 {
        for blockRow := blockRows to c.v
          invariant Allocated() && Stored(c, wholeImage[ci], first + blockRow)
          invariant forall c :: 0 <= c < |wholeImage| && c != ci ==> wholeImage[c] == old(wholeImage[c])
        {
          var row := DummyBlockRow(c, first + blockRow, wholeImage[ci][first + blockRow - 1]);
          StoreRow(ci, first + blockRow, row);
        }
      }
    }

    method StoreRow(ci: nat, row: nat, blocks: seq<Block>)
      requires Sized() && ci < |scan.image.comps| && Allocated() && row < |wholeImage[ci]|
      requires scan.image.comps[ci].h >= 1 && Stored(scan.image.comps[ci], wholeImage[ci], row)
      requires IsPadded(scan.image.comps[ci], row, blocks)
      modifies this`wholeImage
      ensures Allocated() && Stored(scan.image.comps[ci], wholeImage[ci], row + 1)
      ensures forall c :: 0 <= c < |wholeImage| && c != ci ==> wholeImage[c] == old(wholeImage[c])
    {
      hide Image.Total, Image.McusAcross, Component.Padded;
      wholeImage := wholeImage[ci := wholeImage[ci][row := blocks]];
    }

    /** The real block rows of an iMCU row. */
    lemma LastRows(c: Component, r: nat)
      requires Sized() && scan.image.ComponentOk(c) && r < scan.image.Total()
      ensures var rows := if r < scan.image.Total() - 1 then c.v else Rest(|c.blocks|, c.v);
        && 1 <= rows <= c.v && r * c.v + rows <= |c.blocks|
          && (r == scan.image.Total() - 1 ==> r * c.v + rows == |c.blocks|)
      ensures (r + 1) * c.v == r * c.v + c.v <= scan.image.Total() * c.v
    {
      hide Image.Total;
      Extent(scan.image, c);
      RestIs(|c.blocks|, c.v, scan.image.Total());
      McuInRow(r, scan.image.Total(), c.v);
      if r < scan.image.Total() - 1 {
        MulMonotone(r + 1, scan.image.Total() - 1, c.v);
      }
    }

    /** The dummies that complete the last MCU of a row. */
    lemma DummyCount(c: Component)
      requires Sized() && scan.image.ComponentOk(c)
      ensures var n := scan.image.Across(c) % c.h;
        scan.image.Across(c) + (if n > 0 then c.h - n else 0) == scan.image.McusAcross() * c.h
    {
      hide Image.Across, Image.McusAcross;
      Extent(scan.image, c);
      var across, mcus := scan.image.Across(c), scan.image.McusAcross();
      RestIs(across, c.h, mcus);
      assert mcus * c.h == (mcus - 1) * c.h + c.h;
    }

    // ---- passes over the virtual arrays ----

    /** Pointers to the blocks of one block row of a component in an MCU. */
    method PointRow(i: nat, y: nat, yindex: nat, col: nat, blkn0: nat) returns (blkn: nat)
      requires Sized() && iMCURowNum < scan.image.Total() && y < scan.RowsIn(iMCURowNum) && col < scan.McusPerRow()
      requires i < |scan.comps| && yindex < scan.McuHeight(i) && InBuffer(i, y, yindex, col, blkn0)
      requires AllStored(iMCURowNum + 1)
      modifies mcuBuffer
      ensures blkn == blkn0 + scan.McuWidth(i) && InBuffer(i, y, yindex + 1, col, blkn)
    {
      hide Scan.RowBlocks, Scan.BlockAt, Component.Padded, Scan.McuWidth, Scan.McuHeight, Scan.RowsIn,
        Scan.McusPerRow, Image.Total, Scan.McuBlocks, Scan.CompBlocks, AllStored, Scan.Interleaved;
      var row := iMCURowNum * scan.Comp(i).v + y + yindex;
      RowFits(scan, iMCURowNum, y, col, i, yindex);
      RowStored(i, y, yindex, col);
      var startCol := col * scan.McuWidth(i);
      blkn := blkn0;
      for xindex := 0 to scan.McuWidth(i)
        invariant blkn == blkn0 + xindex
        invariant forall j :: 0 <= j < blkn0 ==> mcuBuffer[j] == old(mcuBuffer[j])
        invariant forall j :: blkn0 <= j < blkn ==> mcuBuffer[j] == scan.BlockAt(i, row, col, j - blkn0)
      {
        mcuBuffer[blkn] := wholeImage[scan.comps[i]][row][startCol + xindex];
        blkn := blkn + 1;
      }
      RowIs(scan, i, row, col, old(mcuBuffer[..blkn0]), mcuBuffer[..blkn]);
      RowDone(scan, iMCURowNum, i, y, yindex, col);
    }

    /** The blocks that an MCU points to are in the virtual array. */
    lemma PlaceInArray(i: nat, y: nat, yindex: nat, col: nat)
      requires Sized() && iMCURowNum < scan.image.Total() && y < scan.RowsIn(iMCURowNum) && col < scan.McusPerRow()
      requires i < |scan.comps| && yindex < scan.McuHeight(i)
      ensures iMCURowNum * scan.Comp(i).v + y + yindex < (iMCURowNum + 1) * scan.Comp(i).v
      ensures col * scan.McuWidth(i) + scan.McuWidth(i) <= scan.image.McusAcross() * scan.Comp(i).h
    {
      hide Image.Total, Image.McusAcross, Image.Across, Scan.LastRowHeight;
      var c := scan.Comp(i);
      RowReal(scan, i, iMCURowNum, 0);
      Extent(scan.image, c);
      if scan.Interleaved() {
        McuInRow(col, scan.image.McusAcross(), c.h);
      } else {
        OnlyComponent(scan, i);
      }
      McuInRow(iMCURowNum, iMCURowNum + 1, c.v);
    }

    /** A block row of a component in an MCU is where its virtual array has it. */
    ghost predicate RowThere(i: nat, row: nat, col: nat, start: nat)
      requires Sized() && i < |scan.comps|
      reads this`wholeImage
    {
      && scan.comps[i] < |wholeImage| && row < |wholeImage[scan.comps[i]]|
      && var rows := wholeImage[scan.comps[i]][row];
         start + scan.McuWidth(i) <= |rows| && forall x :: 0 <= x < scan.McuWidth(i) ==>
           rows[start + x] == scan.BlockAt(i, row, col, x)
    }

    lemma RowStored(i: nat, y: nat, yindex: nat, col: nat)
      requires Sized() && iMCURowNum < scan.image.Total() && y < scan.RowsIn(iMCURowNum) && col < scan.McusPerRow()
      requires i < |scan.comps| && yindex < scan.McuHeight(i) && AllStored(iMCURowNum + 1)
      ensures RowThere(i, iMCURowNum * scan.Comp(i).v + y + yindex, col, col * scan.McuWidth(i))
    {
      hide Image.Total, Image.McusAcross, Scan.RowsIn, Scan.McuHeight, Scan.McuWidth, Scan.McusPerRow, Component.Padded;
      PlaceInArray(i, y, yindex, col);
      var c, row := scan.Comp(i), iMCURowNum * scan.Comp(i).v + y + yindex;
      assert IsPadded(c, row, wholeImage[scan.comps[i]][row]);
    }

    method PointMcu(y: nat, col: nat) returns (blkn: nat)
      requires Sized() && iMCURowNum < scan.image.Total() && y < scan.RowsIn(iMCURowNum) && col < scan.McusPerRow()
      requires AllStored(iMCURowNum + 1)
      modifies mcuBuffer
      ensures blkn <= C_MAX_BLOCKS_IN_MCU && mcuBuffer[..blkn] == scan.Mcu(iMCURowNum, y, col)
    {
      hide Scan.Ok, Scan.RowBlocks, Component.Padded, Scan.McuWidth, Scan.McuHeight, Scan.RowsIn, Scan.McusPerRow,
        Image.Total, Scan.McuBlocks, Scan.CompBlocks, AllStored;
      blkn := 0;
      NoBlocks(scan, iMCURowNum, y, col);
      for i := 0 to |scan.comps|
        invariant blkn <= C_MAX_BLOCKS_IN_MCU && mcuBuffer[..blkn] == scan.McuBlocks(iMCURowNum, y, col, i)
      {
        CompStarts(scan, iMCURowNum, i, y, col, mcuBuffer[..blkn]);
        for yindex := 0 to scan.McuHeight(i)
          invariant InBuffer(i, y, yindex, col, blkn)
        {
          blkn := PointRow(i, y, yindex, col, blkn);
        }
        CompDone(scan, iMCURowNum, i, y, col);
      }
    }

    /** Output of an iMCU row, or of what is left of it, from the virtual arrays. */
    method CompressOutput() returns (ok: bool)
      requires Valid() && iMCURowNum < scan.image.Total() && AllStored(iMCURowNum + 1)
      modifies this`iMCURowNum, this`mcuCtr, this`mcuVertOffset, this`mcuRowsPerIMCURow, this`room, this`sent, mcuBuffer
      ensures Valid() && |sent| >= old(|sent|) && |sent| + room == old(|sent| + room) && (!ok ==> room == 0)
      ensures iMCURowNum == old(iMCURowNum) + if ok then 1 else 0
    {
      hide Scan.Ok, Scan.RowsIn, Scan.McusPerRow, Image.Total, Scan.Before, Scan.Mcu, AllStored;
      var r := iMCURowNum;
      var yoffset := mcuVertOffset;
      while yoffset < mcuRowsPerIMCURow
        invariant yoffset <= mcuRowsPerIMCURow == scan.RowsIn(r) && iMCURowNum == r && mcuCtr < scan.McusPerRow()
        invariant sent == scan.Before(r, yoffset, mcuCtr) && |sent| >= old(|sent|) && |sent| + room == old(|sent| + room)
        invariant yoffset == mcuRowsPerIMCURow ==> mcuCtr == 0
      {
        var col := mcuCtr;
        while col < scan.McusPerRow()
          invariant col <= scan.McusPerRow() && iMCURowNum == r && mcuRowsPerIMCURow == scan.RowsIn(r)
          invariant sent == scan.Before(r, yoffset, col) && |sent| >= old(|sent|) && |sent| + room == old(|sent| + room)
        {
          var n := PointMcu(yoffset, col);
          NextMcu(scan, r, yoffset, col);
          ok := EncodeMcu(mcuBuffer[..n]);
          if !ok {
            mcuVertOffset := yoffset;
            mcuCtr := col;
            return;
          }
          col := col + 1;
        }
        RowEnds(scan, r, yoffset);
        mcuCtr := 0;
        yoffset := yoffset + 1;
      }
      ImcuEnds(scan, r);
      iMCURowNum := iMCURowNum + 1;
      StartImcuRow();
      Counts(scan, iMCURowNum);
      ok := true;
    }

    /** Loads an iMCU row of all components, then outputs those of the scan; all is done again after a suspension. */
    method CompressFirstPass() returns (ok: bool)
      requires Valid() && iMCURowNum < scan.image.Total() && AllStored(iMCURowNum)
      modifies this`iMCURowNum, this`mcuCtr, this`mcuVertOffset, this`mcuRowsPerIMCURow, this`room, this`sent,
        this`wholeImage, mcuBuffer
      ensures Valid() && |sent| >= old(|sent|) && |sent| + room == old(|sent| + room) && (!ok ==> room == 0)
      ensures iMCURowNum == old(iMCURowNum) + (if ok then 1 else 0) && AllStored(old(iMCURowNum) + 1)
    {
      hide Scan.Ok, Scan.RowsIn, Scan.McusPerRow, Image.Total, Scan.Before, Stored, ArrayOk;
      for ci := 0 to |scan.image.comps|
        modifies this`wholeImage
        invariant Allocated() && forall c :: 0 <= c < |wholeImage| ==>
          var k := scan.image.comps[c];
          k.h >= 1 && Stored(k, wholeImage[c], (iMCURowNum + if c < ci then 1 else 0) * k.v)
      {
        LoadComponent(ci);
      }
      ok := CompressOutput();
    }
  }
}
