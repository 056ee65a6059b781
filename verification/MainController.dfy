/**
  The decompression main controller with context rows: process_data_context_main and start_pass_main of jdmainct.c.
  However often the data source suspends, and however few row groups the postprocessor takes at a time, it is given
  every row group of the image once, in order, between its neighbours.
*/
module MainController {
  import opened Powers
  import opened RowGroups
  import opened RowContext
  import opened ContextBuffer

  datatype ContextState = PrepareForImcu | ProcessImcu | PostponedRow

  class ContextController {
    const geometry: Geometry
    const comps: seq<ComponentBuffer>

    var bufferFull: bool            // has an iMCU row been received?
    var rowgroupCtr: nat            // row groups given to the postprocessor
    var whichptr: nat               // the pointer list in use
    var contextState: ContextState
    var rowgroupsAvail: nat
    var iMCURowCtr: nat             // iMCU rows received

    var shown: seq<seq<seq<Row>>>   // what the postprocessor has consumed: by row group, by component

    ghost predicate Parts() {
      && geometry.Ok() && |comps| >= 1
      && (forall i :: 0 <= i < |comps| ==>
            comps[i].m == geometry.m && comps[i].plane.Of(geometry) && comps[i].Sized() && this !in comps[i].Repr())
      && forall i, j :: 0 <= i < j < |comps| ==> comps[i].Repr() !! comps[j].Repr()
    }

    ghost function Reprs(): set<object> {
      (set i | 0 <= i < |comps| :: comps[i].buffer as object)
      + (set i | 0 <= i < |comps| :: comps[i].xbuffer0 as object)
      + (set i | 0 <= i < |comps| :: comps[i].xbuffer1 as object)
    }

    ghost predicate AllLists(wrapped: bool)
      reads Reprs()
    {
      forall i :: 0 <= i < |comps| ==> comps[i].Lists(wrapped)
    }

    ghost predicate AllLoaded(t: nat)
      reads Reprs()
    {
      forall i :: 0 <= i < |comps| ==> comps[i].Loaded(t)
    }

    ghost predicate AllKept(t: nat)
      reads Reprs()
    {
      forall i :: 0 <= i < |comps| ==> comps[i].Kept(t)
    }

    ghost predicate AllOffer(w: nat, first: int, lo: nat, hi: nat, raw: bool)
      reads Reprs()
    {
      forall i :: 0 <= i < |comps| ==> comps[i].Offers(w, first, lo, hi, raw)
    }

    /** The row groups in the first t iMCU rows. */
    ghost function GroupsIn(t: int): int {
      t * geometry.m
    }

    /** A row group and its neighbours, in every component. */
    ghost function InContext(group: nat): seq<seq<Row>>
      requires Parts()
    {
      seq(|comps|, i requires 0 <= i < |comps| =>
        PlaneHasRows(geometry, comps[i].plane);
        comps[i].plane.Context(group, BeforeLast(geometry, group)))
    }

    /** The row groups consumed so far are the first ones, in order. */
    ghost predicate InOrder()
      requires Parts()
      reads this`shown
    {
      forall g :: 0 <= g < |shown| ==> shown[g] == InContext(g)
    }

    /** Whether row groups from lo up to hi are the last one before the last iMCU row. */
    ghost predicate AllBefore(lo: nat, hi: nat, raw: bool)
      requires Parts()
    {
      forall g :: lo <= g < hi ==> BeforeLast(geometry, g) == raw
    }

    /** Hands out row groups; the postprocessor takes at most want of them. */
    method PostProcess(want: nat, ghost raw: bool)
      requires Parts() && InOrder() && rowgroupCtr <= rowgroupsAvail
      requires AllOffer(whichptr, |shown| - rowgroupCtr, rowgroupCtr, rowgroupsAvail, raw)
      requires AllBefore(|shown|, |shown| + rowgroupsAvail - rowgroupCtr, raw)
      modifies this`shown, this`rowgroupCtr
      ensures InOrder() && old(rowgroupCtr) <= rowgroupCtr <= rowgroupsAvail
      ensures |shown| - rowgroupCtr == old(|shown| - rowgroupCtr)
      ensures want > 0 && old(rowgroupCtr) < rowgroupsAvail ==> rowgroupCtr > old(rowgroupCtr)
    {
      hide Parts, AllOffer, InContext, AllBefore;
      ghost var all, first, lo := |shown| + rowgroupsAvail - rowgroupCtr, |shown| - rowgroupCtr, rowgroupCtr;
      ThisApart();
      var taken := 0;
      while taken < want && rowgroupCtr < rowgroupsAvail
        invariant InOrder() && old(rowgroupCtr) <= rowgroupCtr <= rowgroupsAvail
        invariant |shown| - rowgroupCtr == old(|shown| - rowgroupCtr)
        invariant taken > 0 ==> rowgroupCtr > old(rowgroupCtr)
        invariant AllOffer(whichptr, first, lo, rowgroupsAvail, raw)
        invariant AllBefore(|shown|, all, raw)
      {
        NextBefore(|shown|, all, raw);
        var rows := ReadRowGroup(rowgroupCtr, first, lo, rowgroupsAvail, raw);
        shown := shown + [rows];
        rowgroupCtr := rowgroupCtr + 1;
        taken := taken + 1;
      }
    }

    lemma ThisApart()
      requires Parts()
      ensures this !in Reprs() && geometry.Ok() && |comps| >= 1
    {
      hide Plane.Of, ComponentBuffer.Sized;
    }

    lemma NextBefore(lo: nat, hi: nat, raw: bool)
      requires Parts() && AllBefore(lo, hi, raw) && lo < hi
      ensures BeforeLast(geometry, lo) == raw && AllBefore(lo + 1, hi, raw)
    {
      hide BeforeLast;
    }

    method ReadRowGroup(r: nat, ghost first: int, ghost lo: nat, ghost hi: nat, ghost raw: bool)
      returns (rows: seq<seq<Row>>)
      requires Parts() && lo <= r < hi && 0 <= first + lo && AllOffer(whichptr, first, lo, hi, raw)
      requires BeforeLast(geometry, first + r) == raw
      ensures rows == InContext(first + r)
    {
      hide BeforeLast, ComponentBuffer.Window, Plane.Context, Plane.Of, ComponentBuffer.Sized;
      rows := [];
      for i := 0 to |comps|
        invariant |rows| == i && forall j :: 0 <= j < i ==> rows[j] == InContext(first + r)[j]
      {
        rows := rows + [comps[i].Window(whichptr, r)];
      }
    }

    // ---- the components together ----

    /** The arrays of one component are not those of another. */
    lemma OthersApart(i: nat)
      requires Parts() && i < |comps|
      ensures comps[i].Sized() && comps[i].m == geometry.m && comps[i].plane.Of(geometry) && this !in comps[i].Repr()
      ensures forall j :: 0 <= j < |comps| && j != i ==> comps[j].Repr() !! comps[i].Repr()
    {
      hide ComponentBuffer.Sized, Plane.Of, ComponentBuffer.Repr;
    }

    /** make_funny_pointers for every component. */
    method MakeAllPointers()
      requires Parts()
      modifies Reprs()
      ensures AllLists(false)
    {
      for i := 0 to |comps|
        invariant forall j :: 0 <= j < i ==> comps[j].Lists(false)
      {
        comps[i].MakeFunnyPointers();
      }
    }

    /** set_wraparound_pointers for every component. */
    method WrapAllPointers()
      requires Parts()
      modifies Reprs()
      ensures old(AllLists(false) && AllKept(1)) ==> AllLists(true) && AllKept(1)
    {
      hide ComponentBuffer.Kept, ComponentBuffer.Sized, Plane.Of, Parts;
      ghost var normal := AllLists(false) && AllKept(1);
      for i := 0 to |comps|
        invariant normal ==> forall j :: 0 <= j < i ==> comps[j].Lists(true) && comps[j].Kept(1)
        invariant normal ==> forall j :: i <= j < |comps| ==> comps[j].Lists(false) && comps[j].Kept(1)
      {
        OthersApart(i);
        comps[i].SetWraparoundPointers();
      }
    }

    /** The coefficient controller delivers an iMCU row to every component. */
    method LoadAll()
      requires Parts() && AllLists(iMCURowCtr >= 1) && (iMCURowCtr >= 1 ==> AllKept(iMCURowCtr))
      requires whichptr == iMCURowCtr % 2 && iMCURowCtr < geometry.Total()
      modifies Reprs()
      ensures AllLists(iMCURowCtr >= 1) && AllLoaded(iMCURowCtr + 1)
    {
      hide ComponentBuffer.Kept, ComponentBuffer.Loaded, ComponentBuffer.Lists, Plane.Of, ComponentBuffer.Sized,
        Geometry.Ok, Parts;
      ThisApart();
      for i := 0 to |comps|
        invariant AllLists(iMCURowCtr >= 1) && whichptr == iMCURowCtr % 2
        invariant forall j :: 0 <= j < i ==> comps[j].Loaded(iMCURowCtr + 1)
        invariant forall j :: i <= j < |comps| && iMCURowCtr >= 1 ==> comps[j].Kept(iMCURowCtr)
      {
        OthersApart(i);
        RowsThere(i, iMCURowCtr);
        comps[i].LoadNext(whichptr, iMCURowCtr, iMCURowCtr >= 1);
      }
    }

    lemma RowsThere(i: nat, t: nat)
      requires Parts() && i < |comps| && t < geometry.Total()
      ensures (t + 1) * comps[i].Imcu() <= |comps[i].plane.rows|
    {
      MulMonotone(t + 1, geometry.Total(), comps[i].Imcu());
    }

    lemma AllKeptAfter(t: nat, wrapped: bool)
      requires Parts() && AllLists(wrapped) && AllLoaded(t)
      ensures AllKept(t)
    {
      hide ComponentBuffer.Kept, ComponentBuffer.Loaded, Plane.Of, ComponentBuffer.Sized, Geometry.Ok,
        ComponentBuffer.Plain, ComponentBuffer.Wrapped;
      forall i | 0 <= i < |comps|
        ensures comps[i].Kept(t)
      {
        comps[i].LoadedKept(t);
      }
    }

    /** The first k components have their bottom rows duplicated. */
    ghost predicate Bottomed(k: nat, first: int, n: nat)
      reads this`iMCURowCtr, this`whichptr, Reprs()
    {
      && k <= |comps|
      && (forall i :: 0 <= i < k ==> comps[i].Offers(whichptr, first, 0, n, false))
      && forall i :: k <= i < |comps| ==> comps[i].Lists(iMCURowCtr >= 2) && comps[i].Loaded(iMCURowCtr)
    }

    /** set_bottom_pointers for every component; the row groups that are left are counted once. */
    method BottomPointers()
      requires Parts() && iMCURowCtr == geometry.Total() && whichptr == (iMCURowCtr - 1) % 2
      requires AllLists(iMCURowCtr >= 2) && AllLoaded(iMCURowCtr)
      modifies Reprs(), this`rowgroupsAvail
      ensures rowgroupsAvail == geometry.LastGroups()
      ensures AllOffer(whichptr, GroupsIn(iMCURowCtr - 1), 0, rowgroupsAvail, false)
    {
      hide ComponentBuffer.Loaded, ComponentBuffer.Lists, ComponentBuffer.Offers, Geometry.Total, Geometry.LastGroups,
        GroupsIn, Parts, Reprs;
      ThisApart();
      geometry.GroupsInRows();
      ghost var n: nat, first := geometry.LastGroups(), GroupsIn(iMCURowCtr - 1);
      for i := 0 to |comps|
        invariant iMCURowCtr == geometry.Total() && whichptr == old(whichptr) && first == GroupsIn(iMCURowCtr - 1)
        invariant Bottomed(i, first, n) && (i > 0 ==> rowgroupsAvail == n)
      {
        var groups := BottomStep(i, first, n);
        if i == 0 {
          rowgroupsAvail := groups;
        }
      }
    }

    method BottomStep(i: nat, ghost first: int, ghost n: nat) returns (groups: nat)
      requires Parts() && i < |comps| && iMCURowCtr == geometry.Total() && whichptr == (iMCURowCtr - 1) % 2
      requires n == geometry.LastGroups() && first == GroupsIn(iMCURowCtr - 1) && Bottomed(i, first, n)
      modifies Reprs()
      ensures groups == n && Bottomed(i + 1, first, n)
    {
      hide ComponentBuffer.Loaded, ComponentBuffer.Lists, ComponentBuffer.Offers, Geometry.Total, Geometry.LastGroups,
        GroupsIn, Parts;
      ThisApart();
      OthersApart(i);
      groups := BottomOf(i);
    }

    /** set_bottom_pointers for one component, which counts the row groups that are left like the others. */
    method BottomOf(i: nat) returns (groups: nat)
      requires Parts() && i < |comps| && iMCURowCtr == geometry.Total() && whichptr == (iMCURowCtr - 1) % 2
      requires comps[i].Lists(iMCURowCtr >= 2) && comps[i].Loaded(iMCURowCtr)
      modifies comps[i].xbuffer0, comps[i].xbuffer1
      ensures groups == geometry.LastGroups()
      ensures comps[i].Offers(whichptr, GroupsIn(iMCURowCtr - 1), 0, groups, false)
    {
      hide Geometry.Total, ComponentBuffer.Offers, ComponentBuffer.Lists, ComponentBuffer.Loaded, Geometry.LastGroups;
      BottomRows(i);
      PlaneHasRows(geometry, comps[i].plane);
      var rowsLeft := comps[i].SetBottomPointers(whichptr, iMCURowCtr);
      groups := (rowsLeft - 1) / comps[i].plane.rgroup + 1;
      BottomOffers(i, rowsLeft);
    }

    lemma BottomRows(i: nat)
      requires Parts() && i < |comps|
      ensures var c, t := comps[i], geometry.Total();
        t >= 1 && (t - 1) * c.Imcu() < c.plane.height <= t * c.Imcu() && c.plane.rgroup >= 1
    {
      hide Geometry.Total;
      PlaneGroups(geometry, comps[i].plane);
      geometry.GroupsInRows();
    }

    lemma BottomOffers(i: nat, rowsLeft: nat)
      requires Parts() && i < |comps| && geometry.Total() >= 1
      requires var c, t := comps[i], geometry.Total();
        && rowsLeft == c.plane.height - (t - 1) * c.Imcu() && rowsLeft <= c.Imcu()
        && 0 < c.plane.height <= |c.plane.rows|
        && c.Visible((t - 1) % 2, (t - 1) * c.Imcu() - c.plane.rgroup, 0, rowsLeft + 3 * c.plane.rgroup, false)
      ensures geometry.LastGroups() == (rowsLeft - 1) / comps[i].plane.rgroup + 1
      ensures comps[i].Offers((geometry.Total() - 1) % 2, GroupsIn(geometry.Total() - 1), 0, geometry.LastGroups(), false)
    {
      hide ComponentBuffer.Visible, ComponentBuffer.Offers, Geometry.Total, Geometry.LastGroups;
      var c, t := comps[i], geometry.Total();
      geometry.GroupsInRows();
      LastRows(geometry, c.plane);
      assert c.Imcu() == c.plane.rgroup * c.m;
      hide ComponentBuffer.Imcu, Plane.Of;
      var n, rg := geometry.LastGroups(), c.plane.rgroup;
      ImcuBase(rg, c.m, t);
      FitsBelow(rowsLeft, rg, n);
      c.VisibleOffers((t - 1) % 2, (t - 1) * c.Imcu() - rg, 0, rowsLeft + 3 * rg, (t - 1) * c.m, 0, n, false);
    }

    lemma FitsBelow(left: nat, rg: nat, n: int)
      requires rg > 0 && left >= 1 && n == (left - 1) / rg + 1
      ensures rg * (n - 1) < left
    {
      var q := (left - 1) / rg;
      assert left - 1 == q * rg + (left - 1) % rg;
    }

    // ---- the state machine ----

    /** Before anything has been received, or with an iMCU row of which nothing has been handed out yet. */
    ghost predicate Preparing()
      requires Parts()
      reads this, Reprs()
    {
      if !bufferFull then iMCURowCtr == 0 && whichptr == 0 && shown == [] && AllLists(false)
      else
        && 1 <= iMCURowCtr <= geometry.Total() && whichptr == (iMCURowCtr - 1) % 2
        && |shown| == GroupsIn(iMCURowCtr - 1) && AllLists(iMCURowCtr >= 2) && AllLoaded(iMCURowCtr)
    }

    /** All row groups but the last, or all real ones in the last iMCU row, are being handed out. */
    ghost predicate Processing()
      requires Parts()
      reads this, Reprs()
    {
      && bufferFull && 1 <= iMCURowCtr <= geometry.Total() && whichptr == (iMCURowCtr - 1) % 2
      && |shown| == GroupsIn(iMCURowCtr - 1) + rowgroupCtr && rowgroupCtr <= rowgroupsAvail
      && rowgroupsAvail == (if iMCURowCtr == geometry.Total() then geometry.LastGroups() else geometry.m - 1)
      && AllOffer(whichptr, GroupsIn(iMCURowCtr - 1), 0, rowgroupsAvail, false)
      && (iMCURowCtr < geometry.Total() ==> AllLists(iMCURowCtr >= 2) && AllLoaded(iMCURowCtr))
    }

    /** The last row group of an iMCU row waits for the next iMCU row, or the image is complete. */
    ghost predicate Waiting()
      requires Parts()
      reads this, Reprs()
    {
      && !bufferFull && 1 <= iMCURowCtr <= geometry.Total() && whichptr == iMCURowCtr % 2
      && rowgroupCtr == geometry.m + 1 && rowgroupsAvail == geometry.m + 2
      && if iMCURowCtr < geometry.Total() then
           |shown| == GroupsIn(iMCURowCtr) - 1 && AllLists(true) && AllKept(iMCURowCtr)
         else |shown| == geometry.Groups()
    }

    /** The last row group of an iMCU row, in context now that the next iMCU row is there. */
    ghost predicate Postponed()
      requires Parts()
      reads this, Reprs()
    {
      && bufferFull && 2 <= iMCURowCtr <= geometry.Total() && whichptr == (iMCURowCtr - 1) % 2
      && rowgroupCtr == geometry.m + 1 && rowgroupsAvail == geometry.m + 2
      && |shown| == GroupsIn(iMCURowCtr - 1) - 1 && AllLists(true) && AllLoaded(iMCURowCtr)
    }

    ghost predicate Valid()
      reads this, Reprs()
    {
      && Parts() && InOrder()
      && match contextState
         case PrepareForImcu => Preparing()
         case ProcessImcu => Processing() && rowgroupCtr < rowgroupsAvail
         case PostponedRow => if bufferFull then Postponed() else Waiting()
    }

    /** jinit_d_main_controller and start_pass_main. */
    constructor (g: Geometry, planes: seq<Plane>)
      requires PlanesOf(g, planes)
      ensures Valid() && fresh(this) && fresh(Reprs()) && geometry == g && shown == []
      ensures |comps| == |planes| && forall i :: 0 <= i < |comps| ==> comps[i].plane == planes[i]
    {
      geometry := g;
      bufferFull, rowgroupCtr, whichptr, contextState, rowgroupsAvail, iMCURowCtr := false, 0, 0, PrepareForImcu, 0, 0;
      shown := [];
      var parts: seq<ComponentBuffer> := [];
      for i := 0 to |planes|
        invariant |parts| == i && forall j :: 0 <= j < i ==>
          fresh(parts[j]) && fresh(parts[j].Repr()) && parts[j].plane == planes[j] && parts[j].m == g.m
            && parts[j].Sized()
        invariant forall j, k :: 0 <= j < k < i ==> parts[j].Repr() !! parts[k].Repr()
      {
        var part := new ComponentBuffer(planes[i], g.m);
        parts := parts + [part];
      }
      comps := parts;
      new;
      MakeAllPointers();
    }

    /** Reads an iMCU row, if the source can deliver one now. */
    method FetchImcuRow(ready: bool)
      requires Valid() && |shown| < geometry.Groups()
      modifies this`bufferFull, this`iMCURowCtr, Reprs()
      ensures Valid() && (ready ==> bufferFull) && (old(bufferFull) ==> bufferFull)
    {
      hide ComponentBuffer.Loaded, ComponentBuffer.Lists, ComponentBuffer.Kept, Geometry.Total, Geometry.Groups,
        GroupsIn, Parts, Reprs, InContext;
      ThisApart();
      if !bufferFull {
        if !ready {
          return;
        }
        RowsToCome();
        LoadAll();
        bufferFull := true;
        iMCURowCtr := iMCURowCtr + 1;
      }
    }

    /** The source still has an iMCU row when row groups are missing. */
    lemma RowsToCome()
      requires Valid() && !bufferFull && |shown| < geometry.Groups()
      ensures iMCURowCtr < geometry.Total() && whichptr == iMCURowCtr % 2
      ensures AllLists(iMCURowCtr >= 1) && (iMCURowCtr >= 1 ==> AllKept(iMCURowCtr)) && GroupsIn(0) == 0
    {
      hide ComponentBuffer.Loaded, ComponentBuffer.Lists, ComponentBuffer.Kept, Geometry.Groups, InContext,
        ComponentBuffer.Sized, Geometry.Total;
      geometry.GroupsInRows();
    }

    /** The row group that waited is handed out. */
    method FinishPostponed(take: nat) returns (done: bool)
      requires Valid() && contextState == PostponedRow && bufferFull
      modifies this`shown, this`rowgroupCtr, this`contextState
      ensures Valid() && (done <==> contextState == PrepareForImcu) && (!done ==> contextState == PostponedRow)
      ensures |shown| == old(|shown|) + if done then 1 else 0
      ensures take > 0 ==> done
    {
      hide ComponentBuffer.Loaded, ComponentBuffer.Lists, ComponentBuffer.Offers, Geometry.Total, Geometry.Groups,
        GroupsIn, Parts, Reprs, InContext, AllBefore;
      ThisApart();
      ghost var raw := iMCURowCtr == geometry.Total();
      PostponedOffer(raw);
      PostProcess(take, raw);
      done := rowgroupCtr >= rowgroupsAvail;
      if done {
        contextState := PrepareForImcu;
      }
    }

    lemma PostponedOffer(raw: bool)
      requires Parts() && Postponed() && raw == (iMCURowCtr == geometry.Total())
      ensures |shown| >= 1 && AllOffer(whichptr, |shown| - rowgroupCtr, rowgroupCtr, rowgroupsAvail, raw)
      ensures AllBefore(|shown|, |shown| + 1, raw)
    {
      hide ComponentBuffer.Loaded, ComponentBuffer.Lists, ComponentBuffer.Offers, ComponentBuffer.Sized, Plane.Of,
        Geometry.Total;
      var t := iMCURowCtr;
      MulStrict(t, geometry.Total(), geometry.m);
      MulMonotone(2, t, geometry.m);
      assert (t - 1) * geometry.m == t * geometry.m - geometry.m;
      forall i | 0 <= i < |comps|
        ensures comps[i].Offers(whichptr, |shown| - rowgroupCtr, rowgroupCtr, rowgroupsAvail, raw)
      {
        PostponedOffers(i, t, raw);
      }
    }

    lemma PostponedOffers(i: nat, t: nat, raw: bool)
      requires Parts() && i < |comps| && 2 <= t <= geometry.Total() && raw == (t == geometry.Total())
      requires comps[i].Lists(true) && comps[i].Loaded(t)
      ensures comps[i].Offers((t - 1) % 2, GroupsIn(t - 1) - 1 - (geometry.m + 1), geometry.m + 1, geometry.m + 2, raw)
    {
      hide ComponentBuffer.Visible, ComponentBuffer.Offers, ComponentBuffer.Lists, ComponentBuffer.Loaded, Geometry.Total;
      var c := comps[i];
      var rg, m := c.plane.rgroup, geometry.m;
      RealRows(i, t);
      c.PostponedVisible(t, raw);
      c.Products();
      PostponedBase(rg, m, t);
      GroupsAtLeast(t, m);
      c.VisibleOffers((t - 1) % 2, (t - 2) * c.Imcu() - 3 * rg, c.Imcu() + rg, c.Imcu() + 4 * rg,
                      (t - 1) * m - 1 - (m + 1), m + 1, m + 2, raw);
    }

    lemma GroupsAtLeast(t: nat, m: nat)
      requires t >= 2 && m >= 1
      ensures (t - 1) * m >= m
    {
      MulMonotone(1, t - 1, m);
    }

    lemma PostponedBase(rg: int, m: int, t: int)
      ensures (t - 2) * (rg * m) - 3 * rg == rg * ((t - 1) * m - 1 - (m + 1)) - rg
    {
    }

    /** All rows of iMCU rows before the last are real. */
    lemma RealRows(i: nat, t: nat)
      requires Parts() && i < |comps| && 1 <= t <= geometry.Total()
      ensures var p, imcu := comps[i].plane, comps[i].Imcu();
        && 0 < p.height <= |p.rows| && (t - 1) * imcu < p.height && (t < geometry.Total() ==> t * imcu < p.height)
    {
      hide Geometry.Total;
      PlaneHasRows(geometry, comps[i].plane);
      PlaneGroups(geometry, comps[i].plane);
      MulMonotone(t - 1, geometry.Total() - 1, comps[i].Imcu());
      if t < geometry.Total() {
        MulMonotone(t, geometry.Total() - 1, comps[i].Imcu());
      }
    }

    /** Gets ready for the row groups of an iMCU row that has been received. */
    method PrepareImcu()
      requires Valid() && contextState == PrepareForImcu && bufferFull
      modifies this`rowgroupCtr, this`rowgroupsAvail, this`contextState, Reprs()
      ensures Valid() && contextState == ProcessImcu && rowgroupCtr == 0 < rowgroupsAvail
    {
      hide ComponentBuffer.Loaded, ComponentBuffer.Lists, ComponentBuffer.Offers, Geometry.Total, Geometry.LastGroups,
        GroupsIn, Parts, Reprs, InContext, AllOffer, AllLists, AllLoaded;
      ThisApart();
      geometry.GroupsInRows();
      ImcuOffer();
      rowgroupCtr := 0;
      rowgroupsAvail := geometry.m - 1;
      if iMCURowCtr == geometry.Total() {
        BottomPointers();
      }
      contextState := ProcessImcu;
    }

    lemma ImcuOffer()
      requires Parts() && Preparing() && bufferFull
      ensures geometry.m >= 2
      ensures iMCURowCtr < geometry.Total() ==> AllOffer(whichptr, GroupsIn(iMCURowCtr - 1), 0, geometry.m - 1, false)
    {
      hide ComponentBuffer.Loaded, ComponentBuffer.Lists, ComponentBuffer.Offers, ComponentBuffer.Sized, Plane.Of,
        Geometry.Total;
      if iMCURowCtr < geometry.Total() {
        forall i | 0 <= i < |comps|
          ensures comps[i].Offers(whichptr, GroupsIn(iMCURowCtr - 1), 0, geometry.m - 1, false)
        {
          ImcuOffers(i, iMCURowCtr);
        }
      }
    }

    lemma ImcuOffers(i: nat, t: nat)
      requires Parts() && i < |comps| && 1 <= t < geometry.Total()
      requires comps[i].Lists(t >= 2) && comps[i].Loaded(t)
      ensures comps[i].Offers((t - 1) % 2, GroupsIn(t - 1), 0, geometry.m - 1, false)
    {
      hide ComponentBuffer.Visible, ComponentBuffer.Offers, ComponentBuffer.Lists, ComponentBuffer.Loaded, Geometry.Total;
      var c := comps[i];
      var rg, m := c.plane.rgroup, geometry.m;
      RealRows(i, t);
      c.StepProduct(t);
      c.RowsVisible(t, c.Imcu());
      c.Products();
      ImcuBase(rg, m, t);
      c.VisibleOffers((t - 1) % 2, (t - 1) * c.Imcu() - rg, 0, c.Imcu() + rg, (t - 1) * m, 0, m - 1, false);
    }

    lemma ImcuBase(rg: nat, m: nat, t: nat)
      requires t >= 1
      ensures (t - 1) * (rg * m) - rg == rg * ((t - 1) * m) - rg && (t - 1) * m >= 0
      ensures m >= 2 ==> rg * (m - 2) + 3 * rg == rg * m + rg
    {
      MulMonotone(0, t - 1, m);
    }

    /** Hands out row groups of the current iMCU row; at its end, switches to the other list. */
    method FinishImcu(take: nat)
      requires Valid() && contextState == ProcessImcu
      modifies this`shown, this`rowgroupCtr, this`rowgroupsAvail, this`contextState, this`whichptr, this`bufferFull,
        Reprs()
      ensures Valid() && |shown| >= old(|shown|) && contextState != PrepareForImcu
      ensures take > 0 ==> |shown| > old(|shown|)
    {
      hide ComponentBuffer.Loaded, ComponentBuffer.Lists, ComponentBuffer.Kept, ComponentBuffer.Offers,
        Geometry.Total, Geometry.LastGroups, GroupsIn, Parts, Reprs, InContext, AllBefore;
      ThisApart();
      ProcessingBefore();
      PostProcess(take, false);
      if rowgroupCtr < rowgroupsAvail {
        return;
      }
      ImcuEnds();
      if iMCURowCtr == 1 {
        WrapAllPointers();
      }
      whichptr := 1 - whichptr;
      bufferFull := false;
      rowgroupCtr := geometry.m + 1;
      rowgroupsAvail := geometry.m + 2;
      contextState := PostponedRow;
    }

    lemma ProcessingBefore()
      requires Parts() && Processing()
      ensures AllBefore(|shown|, |shown| + rowgroupsAvail - rowgroupCtr, false)
      ensures |shown| - rowgroupCtr == GroupsIn(iMCURowCtr - 1) && rowgroupCtr <= rowgroupsAvail
      ensures AllOffer(whichptr, GroupsIn(iMCURowCtr - 1), rowgroupCtr, rowgroupsAvail, false)
    {
      hide ComponentBuffer.Sized, Plane.Of, Geometry.Total, Geometry.LastGroups, ComponentBuffer.Loaded,
        ComponentBuffer.Lists, ComponentBuffer.Window, Plane.Context;
      var t, m := iMCURowCtr, geometry.m;
      assert t * m == (t - 1) * m + m;
      if t < geometry.Total() {
        MulMonotone(t, geometry.Total() - 1, m);
      }
    }

    /** When all row groups of an iMCU row that can be handed out have been. */
    lemma ImcuEnds()
      requires Parts() && Processing() && rowgroupCtr == rowgroupsAvail
      ensures geometry.m >= 2
      ensures iMCURowCtr == geometry.Total() ==> |shown| == geometry.Groups()
      ensures iMCURowCtr < geometry.Total() ==>
        |shown| == GroupsIn(iMCURowCtr) - 1 && AllLists(iMCURowCtr >= 2) && AllKept(iMCURowCtr)
    {
      hide ComponentBuffer.Sized, Plane.Of, Geometry.Total, Geometry.Groups, ComponentBuffer.Loaded,
        ComponentBuffer.Lists, ComponentBuffer.Offers, ComponentBuffer.Kept;
      var t, m := iMCURowCtr, geometry.m;
      assert t * m == (t - 1) * m + m;
      if t < geometry.Total() {
        AllKeptAfter(t, t >= 2);
      }
    }

    /** process_data_context_main, for any behaviour of the source and the postprocessor. */
    method ProcessData(ready: bool, take0: nat, outFull: bool, take1: nat)
      requires Valid() && |shown| < geometry.Groups()
      modifies this, Reprs()
      ensures Valid() && |shown| >= old(|shown|)
      ensures ready && take0 > 0 && take1 > 0 ==> |shown| > old(|shown|)
    {
      hide Preparing, Processing, Postponed, Waiting, Parts, Reprs, InContext, Geometry.Groups, InOrder;
      ThisApart();
      FetchImcuRow(ready);
      if !bufferFull {
        return;
      }
      if contextState == PostponedRow {
        var done := FinishPostponed(take0);
        if !done {
          return;
        }
        if outFull {
          return;
        }
      }
      if contextState == PrepareForImcu {
        PrepareImcu();
      }
      FinishImcu(take1);
    }
  }

  // ---- whole images ----

  /** What one call of process_data meets: whether the source can deliver, and what the postprocessor takes. */
  datatype Call = Call(ready: bool, take0: nat, outFull: bool, take1: nat) {
    predicate Productive() {
      ready && take0 > 0 && take1 > 0
    }
  }

  function Productive(calls: seq<Call>): nat {
    if calls == [] then 0 else Productive(calls[..|calls| - 1]) + if calls[|calls| - 1].Productive() then 1 else 0
  }

  lemma NeverTooMany(c: ContextController)
    requires c.Valid()
    ensures |c.shown| <= c.geometry.Groups()
  {
    hide ContextController.InContext, ComponentBuffer.Sized, Plane.Of, Geometry.Total, Geometry.Groups,
      ComponentBuffer.Lists, ComponentBuffer.Loaded, ComponentBuffer.Kept, ComponentBuffer.Offers;
    c.geometry.GroupsInRows();
    var t, m := c.iMCURowCtr, c.geometry.m;
    if 1 <= t {
      assert t * m == (t - 1) * m + m;
      MulMonotone(t - 1, c.geometry.Total() - 1, m);
      if t < c.geometry.Total() {
        MulMonotone(t, c.geometry.Total() - 1, m);
      }
    }
  }

  /**
    For every image, every pattern of suspension and every way of taking row groups, the postprocessor has been given
    the first row groups of the image, each once and in order; all of them, when enough calls made progress.
  */
  method ProcessImage(g: Geometry, planes: seq<Plane>, calls: seq<Call>) returns (shown: seq<seq<seq<Row>>>)
    requires PlanesOf(g, planes)
    ensures |shown| <= g.Groups() && forall k :: 0 <= k < |shown| ==> shown[k] == RowGroupOf(g, planes, k)
    ensures Productive(calls) >= g.Groups() ==> |shown| == g.Groups()
  {
    hide ContextController.Valid, Geometry.Groups, Plane.Of, ContextController.InContext;
    var c := new ContextController(g, planes);
    var i := 0;
    NeverTooMany(c);
    while i < |calls| && |c.shown| < g.Groups()
      invariant 0 <= i <= |calls| && c.Valid() && fresh(c) && fresh(c.Reprs()) && |c.shown| <= g.Groups()
      invariant |c.shown| == g.Groups() || |c.shown| >= Productive(calls[..i])
    {
      c.ProcessData(calls[i].ready, calls[i].take0, calls[i].outFull, calls[i].take1);
      NeverTooMany(c);
      assert calls[..i + 1][..i] == calls[..i];
      i := i + 1;
    }
    assert calls[..|calls|] == calls;
    shown := c.shown;
    ShownAre(c, planes);
  }

  lemma ShownAre(c: ContextController, planes: seq<Plane>)
    requires c.Valid() && PlanesOf(c.geometry, planes) && |c.comps| == |planes|
    requires forall i :: 0 <= i < |c.comps| ==> c.comps[i].plane == planes[i]
    ensures forall k :: 0 <= k < |c.shown| ==> c.shown[k] == RowGroupOf(c.geometry, planes, k)
  {
    hide ContextController.Preparing, ContextController.Processing, ContextController.Postponed,
      ContextController.Waiting, Plane.Of, Plane.Context, ComponentBuffer.Sized;
    forall k | 0 <= k < |c.shown|
      ensures c.shown[k] == RowGroupOf(c.geometry, planes, k)
    {
      assert c.shown[k] == c.InContext(k);
    }
  }
}
