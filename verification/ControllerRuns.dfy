/** Whole passes of the coefficient controllers, with suspensions anywhere. */
module ControllerRuns {
  import opened Powers
  import opened Coefficients
  import opened RowGroups
  import opened BlockLayout
  import opened CoefController
  import opened TransController

  // ---- what has been sent is always the beginning of the scan ----

  lemma {:induction false} RowPrefix(s: Scan, r: nat, y: nat, col: nat, n: nat)
    requires s.Ok() && col <= n
    ensures s.McuRow(r, y, col) <= s.McuRow(r, y, n)
  {
    hide Scan.Ok, Scan.Mcu;
    if col < n {
      RowPrefix(s, r, y, col, n - 1);
    }
  }

  lemma {:induction false} RowsPrefix(s: Scan, r: nat, y: nat, n: nat)
    requires s.Ok() && y <= n
    ensures s.McuRows(r, y) <= s.McuRows(r, n)
  {
    hide Scan.Ok, Scan.McuRow;
    if y < n {
      RowsPrefix(s, r, y, n - 1);
    }
  }

  lemma {:induction false} ImcuPrefix(s: Scan, r: nat, n: nat)
    requires s.Ok() && r <= n
    ensures s.ImcuRows(r) <= s.ImcuRows(n)
  {
    hide Scan.Ok, Scan.McuRows;
    if r < n {
      ImcuPrefix(s, r, n - 1);
    }
  }

  lemma BeforePrefix(s: Scan, r: nat, y: nat, col: nat, n: nat)
    requires s.Ok() && r < n && y < s.RowsIn(r) && col <= s.McusPerRow()
    ensures s.Before(r, y, col) <= s.ImcuRows(n)
  {
    hide Scan.Ok, Scan.McuRow, Scan.RowsIn, Scan.McusPerRow;
    RowPrefix(s, r, y, col, s.McusPerRow());
    RowsPrefix(s, r, y + 1, s.RowsIn(r));
    ImcuPrefix(s, r + 1, n);
    assert s.McuRows(r, y) + s.McuRow(r, y, col) <= s.McuRows(r, y + 1);
    assert s.ImcuRows(r) + (s.McuRows(r, y) + s.McuRow(r, y, col)) <= s.ImcuRows(r + 1);
  }

  /** All MCUs of a scan. */
  function WholeScan(s: Scan): seq<seq<Block>>
    requires s.Ok()
  {
    s.ImcuRows(s.image.Total())
  }

  /** So many calls, each with room for an MCU at least, complete a pass. */
  predicate Enough(s: Scan, rooms: seq<nat>)
    requires s.Ok()
  {
    |rooms| >= s.image.Total() + |WholeScan(s)| && forall k :: 0 <= k < |rooms| ==> rooms[k] > 0
  }

  lemma SentIsPrefix(c: CoefController)
    requires c.Valid()
    ensures c.sent <= WholeScan(c.scan)
  {
    hide Scan.Before, Scan.RowsIn, Scan.McusPerRow, Image.Total, Scan.ImcuRows;
    if c.iMCURowNum < c.scan.image.Total() {
      BeforePrefix(c.scan, c.iMCURowNum, c.mcuVertOffset, c.mcuCtr, c.scan.image.Total());
    }
  }

  lemma TransSentIsPrefix(c: TransController)
    requires c.Valid()
    ensures c.sent <= WholeScan(c.scan)
  {
    hide Scan.Before, Scan.RowsIn, Scan.McusPerRow, Image.Total, Scan.ImcuRows;
    if c.iMCURowNum < c.scan.image.Total() {
      BeforePrefix(c.scan, c.iMCURowNum, c.mcuVertOffset, c.mcuCtr, c.scan.image.Total());
    }
  }

  /** A single-pass compression: a call of compress_data for each element of rooms, until the image is complete. */
  method SinglePass(scan: Scan, rooms: seq<nat>) returns (done: bool, sent: seq<seq<Block>>)
    requires scan.Ok()
    ensures sent <= WholeScan(scan) && (done ==> sent == WholeScan(scan))
    ensures Enough(scan, rooms) ==> done
  {
    var total := scan.image.Total();
    hide CoefController.Valid, Scan.Ok, Image.Total, Image.Ok;
    var c := new CoefController(scan, []);
    var i := 0;
    while i < |rooms| && c.iMCURowNum < total
      invariant fresh(c) && fresh(c.mcuBuffer) && c.Valid() && c.scan == scan && c.iMCURowNum <= total
      invariant 0 <= i <= |rooms| && (Enough(scan, rooms) ==> c.iMCURowNum + |c.sent| >= i)
    {
      GiveRoom(c, rooms[i]);
      var ok := c.CompressData();
      i := i + 1;
    }
    SentIsPrefix(c);
    done, sent := c.iMCURowNum == total, c.sent;
  }

  /** The output is emptied before a call. */
  method GiveRoom(c: CoefController, room: nat)
    requires c.Valid()
    modifies c`room
    ensures c.Valid() && c.room == room
  {
    hide Scan.Ok, Scan.Before, Scan.RowsIn, Scan.McusPerRow, Image.Total, Scan.ImcuRows;
    c.room := room;
  }

  // ---- virtual arrays ----

  method ZeroRow(n: nat) returns (row: seq<Block>)
    ensures |row| == n
  {
    row := [];
    for i := 0 to n
      invariant |row| == i
    {
      row := row + [ZERO_BLOCK];
    }
  }

  method ZeroRows(m: nat, n: nat) returns (rows: seq<seq<Block>>)
    ensures |rows| == m && forall r :: 0 <= r < m ==> |rows[r]| == n
  {
    rows := [];
    for i := 0 to m
      invariant |rows| == i && forall r :: 0 <= r < i ==> |rows[r]| == n
    {
      var row := ZeroRow(n);
      rows := rows + [row];
    }
  }

  /** A full-image array for each component, padded to a multiple of its sampling factors. */
  method AllocateArrays(m: Image) returns (arrays: seq<seq<seq<Block>>>)
    requires m.Ok()
    ensures |arrays| == |m.comps|
    ensures forall i :: 0 <= i < |arrays| ==>
      var c := m.comps[i];
      |arrays[i]| == m.Total() * c.v && forall r :: 0 <= r < |arrays[i]| ==> |arrays[i][r]| == m.McusAcross() * c.h
  {
    arrays := [];
    for i := 0 to |m.comps|
      invariant |arrays| == i
      invariant forall k :: 0 <= k < i ==>
        var c := m.comps[k];
        |arrays[k]| == m.Total() * c.v && forall r :: 0 <= r < |arrays[k]| ==> |arrays[k][r]| == m.McusAcross() * c.h
    {
      var c := m.comps[i];
      RoundedUp(m, c);
      var rows := ZeroRows(DivRoundUp(|c.blocks|, c.v) * c.v, DivRoundUp(m.Across(c), c.h) * c.h);
      arrays := arrays + [rows];
    }
  }

  lemma RoundedUp(m: Image, c: Component)
    requires m.Ok() && m.ComponentOk(c)
    ensures DivRoundUp(|c.blocks|, c.v) == m.Total() && DivRoundUp(m.Across(c), c.h) == m.McusAcross()
  {
    hide Image.Total, Image.McusAcross, Image.Across, DivRoundUp;
    Extent(m, c);
    RoundUpUnique(|c.blocks|, c.v, m.Total());
    RoundUpUnique(m.Across(c), c.h, m.McusAcross());
  }

  lemma NothingStored(c: CoefController)
    requires c.Sized() && c.Allocated()
    ensures c.AllStored(0)
  {
    hide Image.Total, Image.McusAcross;
  }

  lemma FewerStored(c: CoefController, n: nat, k: nat)
    requires c.Sized() && c.AllStored(n) && k <= n
    ensures c.AllStored(k)
  {
    hide Image.Total, Image.McusAcross, CoefController.IsPadded;
    forall i | 0 <= i < |c.wholeImage|
      ensures c.Stored(c.scan.image.comps[i], c.wholeImage[i], k * c.scan.image.comps[i].v)
    {
      MulMonotone(k, n, c.scan.image.comps[i].v);
    }
  }

  /** Arrays are the same for every scan of an image. */
  lemma SameArrays(c: CoefController, d: CoefController, n: nat)
    requires c.Sized() && d.Sized() && c.AllStored(n) && d.scan.image == c.scan.image && d.wholeImage == c.wholeImage
    ensures d.AllStored(n)
  {
    hide Image.Total, Image.McusAcross, Component.Padded;
    forall i | 0 <= i < |d.wholeImage|
      ensures d.ArrayOk(d.scan.image.comps[i], d.wholeImage[i])
      ensures d.Stored(d.scan.image.comps[i], d.wholeImage[i], n * d.scan.image.comps[i].v)
    {
      assert c.ArrayOk(c.scan.image.comps[i], c.wholeImage[i]);
      var k, rows := c.scan.image.comps[i], c.wholeImage[i];
      forall r | 0 <= r < n * k.v
        ensures d.IsPadded(k, r, rows[r])
      {
        assert c.IsPadded(k, r, rows[r]);
      }
    }
  }

  /** The first pass of a multi-pass compression of the same data: calls of compress_first_pass. */
  method FirstPass(scan: Scan, rooms: seq<nat>) returns (done: bool, c: CoefController)
    requires scan.Ok()
    ensures fresh(c) && fresh(c.mcuBuffer) && c.Sized() && c.scan == scan
    ensures c.sent <= WholeScan(scan) && (done ==> c.sent == WholeScan(scan) && c.AllStored(scan.image.Total()))
    ensures Enough(scan, rooms) ==> done
  {
    var total := scan.image.Total();
    c := StartFirstPass(scan);
    hide CoefController.Valid, CoefController.AllStored, CoefController.Allocated, CoefController.Sized, Scan.Ok,
      Scan.ImcuRows, Image.Total, Image.Ok;
    var i := 0;
    while i < |rooms| && c.iMCURowNum < total
      invariant fresh(c) && fresh(c.mcuBuffer) && c.Valid() && c.scan == scan && c.iMCURowNum <= total
      invariant c.Sized() && c.AllStored(c.iMCURowNum)
      invariant 0 <= i <= |rooms| && (Enough(scan, rooms) ==> c.iMCURowNum + |c.sent| >= i)
    {
      FirstPassCall(c, rooms[i]);
      i := i + 1;
    }
    SentIsPrefix(c);
    done := c.iMCURowNum == total;
  }

  /** One call of compress_first_pass, with some room in the output. */
  method FirstPassCall(c: CoefController, room: nat)
    requires c.Valid() && c.Sized() && c.iMCURowNum < c.scan.image.Total() && c.AllStored(c.iMCURowNum)
    modifies c, c.mcuBuffer
    ensures c.Valid() && c.Sized() && c.iMCURowNum <= c.scan.image.Total() && c.AllStored(c.iMCURowNum)
    ensures room > 0 ==> c.iMCURowNum + |c.sent| > old(c.iMCURowNum + |c.sent|)
  {
    hide CoefController.Valid, CoefController.AllStored, Scan.Ok, Scan.ImcuRows, Image.Total;
    GiveRoom(c, room);
    var ok := c.CompressFirstPass();
    if !ok {
      FewerStored(c, c.iMCURowNum + 1, c.iMCURowNum);
    }
  }

  method StartFirstPass(scan: Scan) returns (c: CoefController)
    requires scan.Ok()
    ensures fresh(c) && fresh(c.mcuBuffer) && c.Valid() && c.Sized() && c.scan == scan && c.AllStored(0)
    ensures c.iMCURowNum == 0 && c.sent == []
  {
    hide CoefController.Valid, CoefController.AllStored, Image.Total, Image.McusAcross;
    var arrays := AllocateArrays(scan.image);
    c := new CoefController(scan, arrays);
    IsSized(c);
    NothingStored(c);
  }

  /** A first pass, then a pass for any scan of the same image: calls of compress_output. */
  method TwoPasses(scan: Scan, rooms: seq<nat>, later: Scan, laterRooms: seq<nat>)
      returns (sent: seq<seq<Block>>, laterDone: bool, laterSent: seq<seq<Block>>)
    requires scan.Ok() && later.Ok() && later.image == scan.image && Enough(scan, rooms)
    ensures sent == WholeScan(scan)
    ensures laterSent <= WholeScan(later) && (laterDone ==> laterSent == WholeScan(later))
    ensures Enough(later, laterRooms) ==> laterDone
  {
    hide Scan.Ok, Enough, WholeScan, CoefController.AllStored, CoefController.Sized;
    var done, c := FirstPass(scan, rooms);
    sent := c.sent;
    laterDone, laterSent := LaterPass(c, later, laterRooms);
  }

  method LaterPass(first: CoefController, later: Scan, rooms: seq<nat>) returns (done: bool, sent: seq<seq<Block>>)
    requires first.Sized() && later.Ok() && later.image == first.scan.image && first.AllStored(later.image.Total())
    ensures sent <= WholeScan(later) && (done ==> sent == WholeScan(later))
    ensures Enough(later, rooms) ==> done
  {
    var total := later.image.Total();
    hide CoefController.Valid, CoefController.AllStored, Scan.Ok, Image.Total, Image.Ok;
    var c := new CoefController(later, first.wholeImage);
    IsSized(c);
    SameArrays(first, c, total);
    var i := 0;
    while i < |rooms| && c.iMCURowNum < total
      invariant fresh(c) && fresh(c.mcuBuffer) && c.Valid() && c.scan == later && c.iMCURowNum <= total
      invariant c.Sized() && c.AllStored(total)
      invariant 0 <= i <= |rooms| && (Enough(later, rooms) ==> c.iMCURowNum + |c.sent| >= i)
    {
      LaterCall(c, rooms[i]);
      i := i + 1;
    }
    SentIsPrefix(c);
    done, sent := c.iMCURowNum == total, c.sent;
  }

  /** One call of compress_output, with some room in the output. */
  method LaterCall(c: CoefController, room: nat)
    requires c.Valid() && c.Sized() && c.iMCURowNum < c.scan.image.Total() && c.AllStored(c.scan.image.Total())
    modifies c`room, c`iMCURowNum, c`mcuCtr, c`mcuVertOffset, c`mcuRowsPerIMCURow, c`sent, c.mcuBuffer
    ensures c.Valid() && c.iMCURowNum <= c.scan.image.Total()
    ensures room > 0 ==> c.iMCURowNum + |c.sent| > old(c.iMCURowNum + |c.sent|)
  {
    hide CoefController.Valid, CoefController.AllStored, Scan.ImcuRows, Image.Total;
    GiveRoom(c, room);
    FewerStored(c, c.scan.image.Total(), c.iMCURowNum + 1);
    var ok := c.CompressOutput();
  }

  lemma IsSized(c: CoefController)
    requires c.Valid()
    ensures c.Sized()
  {
  }

  /** Transcoding of the same coefficients: calls of compress_output of jctrans.c. */
  method Transcoding(scan: Scan, rooms: seq<nat>) returns (done: bool, sent: seq<seq<Block>>)
    requires scan.Ok()
    ensures sent <= WholeScan(scan) && (done ==> sent == WholeScan(scan))
    ensures Enough(scan, rooms) ==> done
  {
    var total := scan.image.Total();
    hide TransController.Valid, Scan.Ok, Image.Total, Image.Ok;
    var c := new TransController(scan);
    var i := 0;
    while i < |rooms| && c.iMCURowNum < total
      invariant fresh(c) && fresh(c.mcuBuffer) && fresh(c.dummyBuffer) && c.Valid() && c.scan == scan
        && c.iMCURowNum <= total
      invariant 0 <= i <= |rooms| && (Enough(scan, rooms) ==> c.iMCURowNum + |c.sent| >= i)
    {
      GiveTransRoom(c, rooms[i]);
      var ok := c.CompressOutput();
      i := i + 1;
    }
    TransSentIsPrefix(c);
    done, sent := c.iMCURowNum == total, c.sent;
  }

  method GiveTransRoom(c: TransController, room: nat)
    requires c.Valid()
    modifies c`room
    ensures c.Valid() && c.room == room
  {
    hide Scan.Ok, Scan.Before, Scan.RowsIn, Scan.McusPerRow, Image.Total, Scan.ImcuRows;
    c.room := room;
  }

  /** The three controllers hand the same MCUs to the entropy encoder, whatever suspensions each of them met. */
  method ControllersAgree(scan: Scan, rooms0: seq<nat>, rooms1: seq<nat>, rooms2: seq<nat>)
      returns (sent0: seq<seq<Block>>, sent1: seq<seq<Block>>, sent2: seq<seq<Block>>)
    requires scan.Ok() && Enough(scan, rooms0) && Enough(scan, rooms1) && Enough(scan, rooms2)
    ensures sent0 == sent1 == sent2
  {
    hide Scan.Ok, Enough, WholeScan;
    var done0, done1, done2;
    done0, sent0 := SinglePass(scan, rooms0);
    var c;
    done1, c := FirstPass(scan, rooms1);
    sent1 := c.sent;
    done2, sent2 := Transcoding(scan, rooms2);
  }
}
