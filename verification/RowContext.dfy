/** What the main controller gives to the postprocessor as the context of a row group, and how true it is. */
module RowContext {
  import opened Powers
  import opened RowGroups

  /** The planes of an image: all of its geometry. */
  predicate PlanesOf(g: Geometry, planes: seq<Plane>) {
    g.Ok() && |planes| >= 1 && forall i :: 0 <= i < |planes| ==> planes[i].Of(g)
  }

  /** In the last row group before the last iMCU row, rows of padding may be among the rows below. */
  predicate BeforeLast(g: Geometry, group: nat)
    requires g.Ok()
  {
    group + 1 == (g.Total() - 1) * g.m
  }

  lemma PlaneHasRows(g: Geometry, p: Plane)
    requires g.Ok() && p.Of(g)
    ensures 0 < p.height <= |p.rows|
  {
    LastRows(g, p);
    PlaneGroups(g, p);
    GroupProduct(g, p);
  }

  lemma GroupProduct(g: Geometry, p: Plane)
    requires g.Ok() && p.Of(g)
    ensures (g.Total() - 1) * (p.rgroup * g.m) >= 0
  {
    g.GroupsInRows();
    MulMonotone(0, g.Total() - 1, p.rgroup * g.m);
  }

  /** A row group of an image between its neighbours, in every component. */
  function RowGroupOf(g: Geometry, planes: seq<Plane>, group: nat): seq<seq<Row>>
    requires PlanesOf(g, planes)
  {
    seq(|planes|, i requires 0 <= i < |planes| =>
      PlaneHasRows(g, planes[i]);
      planes[i].Context(group, BeforeLast(g, group)))
  }

  /** The last iMCU row has at least one full row group of the component, or is the only one. */
  predicate FullGroupAtBottom(g: Geometry, p: Plane)
    requires g.Ok()
  {
    g.Total() == 1 || p.height - (g.Total() - 1) * (p.rgroup * g.m) >= p.rgroup
  }

  /** Where the rows of a row group and its neighbours are in the image. */
  lemma ContextPosition(p: Plane, group: nat, start: int, j: nat)
    requires 0 < p.height <= |p.rows| && start == p.rgroup * group + p.rgroup && j < 3 * p.rgroup
    ensures p.Context(group, true)[j] == p.RowShown(start - 2 * p.rgroup + j, true)
    ensures p.Context(group, false)[j] == p.RowAt(start - 2 * p.rgroup + j)
    ensures start - 2 * p.rgroup + j < p.height ==> p.Context(group, true)[j] == p.Context(group, false)[j]
  {
    hide Plane.RowAt;
    assert p.Context(group, false)[j] == p.RowShown(p.rgroup * group - p.rgroup + j, false);
    assert p.Context(group, true)[j] == p.RowShown(p.rgroup * group - p.rgroup + j, true);
    PositionReal(p, start - 2 * p.rgroup + j);
  }

  lemma PositionReal(p: Plane, at: int)
    requires 0 < p.height <= |p.rows|
    ensures p.RowShown(at, false) == p.RowAt(at) && (at < p.height ==> p.RowShown(at, true) == p.RowAt(at))
  {
  }

  /** The last row group before the last iMCU row. */
  lemma LastPosition(g: Geometry, p: Plane, group: nat)
    requires g.Ok() && p.Of(g) && BeforeLast(g, group)
    ensures p.rgroup * group + p.rgroup == (g.Total() - 1) * (p.rgroup * g.m) < p.height
  {
    hide Geometry.Total;
    PlaneGroups(g, p);
    assert p.rgroup * (group + 1) == p.rgroup * ((g.Total() - 1) * g.m);
  }

  /**
    The row group itself, the rows above it and the first row below it are always those of the image, with its first
    and last real row duplicated at the edges.
  */
  lemma NearestRowsTrue(g: Geometry, p: Plane, group: nat, j: nat)
    requires g.Ok() && p.Of(g) && group < g.Groups() && j <= 2 * p.rgroup
    ensures 0 < p.height <= |p.rows|
    ensures p.Context(group, BeforeLast(g, group))[j] == p.Context(group, false)[j]
  {
    hide Geometry.Total, Geometry.Groups, Plane.Context, BeforeLast;
    PlaneHasRows(g, p);
    if BeforeLast(g, group) {
      LastPosition(g, p, group);
      ContextPosition(p, group, p.rgroup * group + p.rgroup, j);
    }
  }

  /** All of the context is, when the last iMCU row has a full row group. */
  lemma ContextTrue(g: Geometry, p: Plane, group: nat)
    requires g.Ok() && p.Of(g) && group < g.Groups() && FullGroupAtBottom(g, p)
    ensures 0 < p.height <= |p.rows| && p.Context(group, BeforeLast(g, group)) == p.Context(group, false)
  {
    hide Geometry.Total, Geometry.Groups, BeforeLast;
    PlaneHasRows(g, p);
    if BeforeLast(g, group) {
      LastPosition(g, p, group);
      MoreThanOne(g, group);
      forall j | 0 <= j < 3 * p.rgroup
        ensures p.Context(group, true)[j] == p.Context(group, false)[j]
      {
        ContextPosition(p, group, p.rgroup * group + p.rgroup, j);
      }
    }
  }

  lemma MoreThanOne(g: Geometry, group: nat)
    requires g.Ok() && BeforeLast(g, group)
    ensures g.Total() != 1
  {
    hide Geometry.Total;
  }

  /** The last row group before an iMCU row that is not the first. */
  function LastBefore(g: Geometry): int
    requires g.Ok()
  {
    (g.Total() - 1) * g.m - 1
  }

  /** Otherwise rows of padding follow the first row below the last but one iMCU row. */
  lemma PaddingShows(g: Geometry, p: Plane)
    requires g.Ok() && p.Of(g) && !FullGroupAtBottom(g, p)
    ensures 0 <= LastBefore(g) < g.Groups() && BeforeLast(g, LastBefore(g)) && p.rgroup >= 2 && 0 < p.height <= |p.rows|
    ensures var padding := (g.Total() - 1) * (p.rgroup * g.m) + p.rgroup - 1;
      && p.height <= padding < |p.rows|
      && p.Context(LastBefore(g), true)[3 * p.rgroup - 1] == p.rows[padding]
      && p.Context(LastBefore(g), false)[3 * p.rgroup - 1] == p.rows[p.height - 1]
  {
    hide Geometry.Total, Geometry.Groups, Plane.Context;
    g.GroupsInRows();
    PlaneHasRows(g, p);
    PlaneGroups(g, p);
    MulMonotone(1, g.Total() - 1, g.m);
    var group: nat, start := LastBefore(g), (g.Total() - 1) * (p.rgroup * g.m);
    LastPosition(g, p, group);
    OneMoreRow(g.Total(), p.rgroup * g.m);
    MulMonotone(2, g.m, p.rgroup);
    ContextPosition(p, group, start, 3 * p.rgroup - 1);
  }

  lemma OneMoreRow(t: int, imcu: int)
    ensures t * imcu == (t - 1) * imcu + imcu
  {
  }

  predicate AllContextTrue(g: Geometry, p: Plane)
    requires g.Ok() && 0 < p.height <= |p.rows|
  {
    forall group: nat :: group < g.Groups() ==> p.Context(group, BeforeLast(g, group)) == p.Context(group, false)
  }

  /** The same component with other rows. */
  function With(p: Plane, rows: seq<Row>): Plane {
    Plane(p.rgroup, p.height, rows)
  }

  lemma AllTrue(g: Geometry, p: Plane)
    requires g.Ok() && p.Of(g) && FullGroupAtBottom(g, p)
    ensures 0 < p.height <= |p.rows| && AllContextTrue(g, p)
  {
    hide Geometry.Total, Geometry.Groups, Plane.Context, Plane.Of, BeforeLast, FullGroupAtBottom;
    PlaneHasRows(g, p);
    forall group: nat | group < g.Groups()
      ensures p.Context(group, BeforeLast(g, group)) == p.Context(group, false)
    {
      ContextTrue(g, p, group);
    }
  }

  /** The padding row that ends the context of the last row group before the last iMCU row. */
  function PaddingAt(g: Geometry, p: Plane): int
    requires g.Ok()
  {
    (g.Total() - 1) * (p.rgroup * g.m) + p.rgroup - 1
  }

  lemma PaddingDiffers(g: Geometry, p: Plane)
    requires g.Ok() && p.Of(g) && !FullGroupAtBottom(g, p)
    ensures 0 < p.height <= PaddingAt(g, p) < |p.rows|
    ensures p.rows[PaddingAt(g, p)] != p.rows[p.height - 1] ==> !AllContextTrue(g, p)
  {
    hide Geometry.Total, Geometry.Groups, Plane.Context, Plane.Of, BeforeLast, FullGroupAtBottom;
    PaddingShows(g, p);
    var group: nat := LastBefore(g);
    if p.rows[PaddingAt(g, p)] != p.rows[p.height - 1] {
      assert p.Context(group, BeforeLast(g, group)) != p.Context(group, false);
    }
  }

  /** Rows whose padding can be told from the last real row. */
  lemma SomeFalse(g: Geometry, p: Plane) returns (rows: seq<Row>)
    requires g.Ok() && p.Of(g) && !FullGroupAtBottom(g, p)
    ensures 0 < p.height <= |p.rows| == |rows| && !AllContextTrue(g, With(p, rows))
  {
    hide Geometry.Total, Geometry.Groups, AllContextTrue, BeforeLast, PaddingAt;
    PaddingDiffers(g, p);
    rows := seq(|p.rows|, k => if k == PaddingAt(g, p) then [1] else []);
    assert PaddingAt(g, With(p, rows)) == PaddingAt(g, p) by {
      SamePadding(g, p, rows);
    }
    PaddingDiffers(g, With(p, rows));
  }

  lemma SamePadding(g: Geometry, p: Plane, rows: seq<Row>)
    requires g.Ok()
    ensures PaddingAt(g, With(p, rows)) == PaddingAt(g, p)
  {
    hide Geometry.Total;
  }

  /** Whatever the rows are, all context is true exactly when the last iMCU row has a full row group, or is the first. */
  lemma ContextTrueExactly(g: Geometry, p: Plane)
    requires g.Ok() && p.Of(g)
    ensures 0 < p.height <= |p.rows|
    ensures FullGroupAtBottom(g, p) <==>
      forall rows: seq<Row> | |rows| == |p.rows| :: AllContextTrue(g, With(p, rows))
  {
    hide Geometry.Total, Geometry.Groups, Plane.Context, BeforeLast, AllContextTrue;
    PlaneHasRows(g, p);
    if FullGroupAtBottom(g, p) {
      forall rows: seq<Row> | |rows| == |p.rows|
        ensures AllContextTrue(g, With(p, rows))
      {
        AllTrue(g, With(p, rows));
      }
    } else {
      var rows := SomeFalse(g, p);
    }
  }

  /** An image of 17 rows whose full-height component has two rows in a row group. */
  lemma PaddingShowsInstance(p: Plane)
    requires p.rgroup == 2 && p.height == 17 && |p.rows| == 32 && p.rows[17] != p.rows[16]
    ensures var g := Geometry(17, 16, 8);
      g.Ok() && p.Of(g) && g.Groups() == 9 && p.Context(7, BeforeLast(g, 7)) != p.Context(7, false)
  {
    var g := Geometry(17, 16, 8);
    assert g.Total() == 2 && p.Of(g) && g.Groups() == 9 && BeforeLast(g, 7);
    ContextPosition(p, 7, 16, 5);
  }
}
