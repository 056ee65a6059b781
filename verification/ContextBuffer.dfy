/**
  The workspace of one component in the decompression main controller, and its two pointer lists: alloc_funny_pointers,
  make_funny_pointers, set_wraparound_pointers and set_bottom_pointers of jdmainct.c. A pointer to a workspace row is
  the number of that row. Entry rgroup of a list is where its master pointer points.
*/
module ContextBuffer {
  import opened Powers
  import opened RowGroups

  class ComponentBuffer {
    const plane: Plane
    const m: nat                    // row groups in an iMCU row
    const buffer: array<Row>        // M + 2 row groups
    const xbuffer0: array<nat>      // M + 4 row groups
    const xbuffer1: array<nat>

    constructor (plane: Plane, m: nat)
      requires m >= 2 && plane.rgroup >= 1
      ensures Sized() && fresh(Repr()) && this.plane == plane && this.m == m
    {
      this.plane, this.m := plane, m;
      buffer := new Row[plane.rgroup * (m + 2)](_ => []);
      xbuffer0, xbuffer1 := new nat[plane.rgroup * (m + 4)](_ => 0), new nat[plane.rgroup * (m + 4)](_ => 0);
      new;
      Products();
    }

    ghost function Repr(): set<object> {
      {buffer as object, xbuffer0, xbuffer1}
    }

    /** The sample rows in an iMCU row. */
    function Imcu(): nat {
      plane.rgroup * m
    }

    lemma Products()
      ensures var rg, h := plane.rgroup, Imcu();
        && rg * (m + 1) == h + rg && rg * (m + 2) == h + 2 * rg && rg * (m + 4) == h + 4 * rg
          && rg * (m - 2) == h - 2 * rg
      ensures m >= 2 ==> Imcu() >= 2 * plane.rgroup
    {
      if m >= 2 {
        MulMonotone(2, m, plane.rgroup);
      }
    }

    ghost predicate Sized() {
      && m >= 2 && plane.rgroup >= 1 && Imcu() >= 2 * plane.rgroup
      && buffer.Length == Imcu() + 2 * plane.rgroup
      && xbuffer0.Length == xbuffer1.Length == Imcu() + 4 * plane.rgroup && xbuffer0 != xbuffer1
      && buffer as object != xbuffer0 && buffer as object != xbuffer1
    }

    function List(w: nat): array<nat> {
      if w == 0 then xbuffer0 else xbuffer1
    }

    /** The workspace row at a place in the usual order, or with the last four row groups in swapped order. */
    function Pointer(w: nat, i: int): int {
      if w == 0 || i < Imcu() - 2 * plane.rgroup then i
      else if i < Imcu() then i + 2 * plane.rgroup
      else i - 2 * plane.rgroup
    }

    ghost predicate Plain(w: nat)
      reads List(w)
    {
      Sized() && forall k :: plane.rgroup <= k < Imcu() + 3 * plane.rgroup ==> List(w)[k] == Pointer(w, k - plane.rgroup)
    }

    /** The entries above the master pointer all show the first row. */
    ghost predicate Topped()
      reads xbuffer0
    {
      Sized() && forall k :: 0 <= k < plane.rgroup ==> xbuffer0[k] == xbuffer0[plane.rgroup]
    }

    /** The first n entries at either end wrap around. */
    ghost predicate WrappedTo(w: nat, n: nat)
      reads List(w)
    {
      && Sized() && n <= plane.rgroup
      && (forall k :: 0 <= k < n ==> List(w)[k] == List(w)[k + Imcu() + 2 * plane.rgroup])
      && forall k :: Imcu() + 3 * plane.rgroup <= k < Imcu() + 3 * plane.rgroup + n ==>
           List(w)[k] == List(w)[k - Imcu() - 2 * plane.rgroup]
    }

    ghost predicate Wrapped(w: nat)
      reads List(w)
    {
      WrappedTo(w, plane.rgroup)
    }

    ghost predicate Lists(wrapped: bool)
      reads xbuffer0, xbuffer1
    {
      Plain(0) && Plain(1) && if wrapped then Wrapped(0) && Wrapped(1) else Topped()
    }

    /** make_funny_pointers. */
    method MakeFunnyPointers()
      requires Sized()
      modifies xbuffer0, xbuffer1
      ensures Lists(false)
    {
      hide Imcu;
      var rg := plane.rgroup;
      Products();
      for i := 0 to rg * (m + 2)
        invariant forall k :: rg <= k < rg + i ==> xbuffer0[k] == xbuffer1[k] == k - rg
      {
        xbuffer0[rg + i] := i;
        xbuffer1[rg + i] := i;
      }
      for i := 0 to rg * 2
        invariant forall k :: rg <= k < Imcu() + 3 * rg ==> xbuffer0[k] == k - rg
        invariant forall k :: rg <= k < Imcu() + 3 * rg ==>
          xbuffer1[k] == if Imcu() - rg <= k < Imcu() - rg + i || Imcu() + rg <= k < Imcu() + rg + i
                         then Pointer(1, k - rg) else k - rg
      {
        xbuffer1[rg + rg * (m - 2) + i] := rg * m + i;
        xbuffer1[rg + rg * m + i] := rg * (m - 2) + i;
      }
      for i := 0 to rg
        invariant Plain(0) && Plain(1) && forall k :: 0 <= k < i ==> xbuffer0[k] == xbuffer0[rg]
      {
        xbuffer0[i] := xbuffer0[rg];
      }
    }

    /** set_wraparound_pointers. */
    method SetWraparoundPointers()
      requires Sized()
      modifies xbuffer0, xbuffer1
      ensures old(Lists(false)) ==> Lists(true)
      ensures old(Lists(false) && Kept(1)) ==> Kept(1)
    {
      hide Imcu, Pointer;
      ghost var normal := Lists(false);
      for i := 0 to plane.rgroup
        invariant normal ==> Plain(0) && Plain(1) && WrappedTo(0, i) && WrappedTo(1, i)
      {
        WrapEntry(0, i, normal);
        WrapEntry(1, i, normal);
      }
      if old(Lists(false) && Kept(1)) {
        forall k | plane.rgroup + Imcu() <= k < Imcu() + 3 * plane.rgroup
          ensures See(1, k) == old(See(1, k))
        {
          assert List(1)[k] == Pointer(1, k - plane.rgroup) == old(List(1)[k]);
        }
      }
    }

    method WrapEntry(w: nat, i: nat, ghost normal: bool)
      requires w <= 1 && i < plane.rgroup && Sized() && (normal ==> Plain(w) && WrappedTo(w, i))
      modifies List(w)
      ensures normal ==> Plain(w) && WrappedTo(w, i + 1)
    {
      hide Imcu, Pointer;
      var rg, xbuf := plane.rgroup, List(w);
      Products();
      var last, after := rg * (m + 1), rg * (m + 2);
      xbuf[i] := xbuf[rg + last + i];
      xbuf[rg + after + i] := xbuf[rg + i];
    }

    /** The row that entry k of a list shows. */
    function See(w: nat, k: int): Row
      requires Sized() && 0 <= k < Imcu() + 4 * plane.rgroup
      reads buffer, List(w)
    {
      if List(w)[k] < buffer.Length then buffer[List(w)[k]] else []
    }

    /** The coefficient controller delivers an iMCU row through a list. */
    method Load(w: nat, t: nat)
      requires w <= 1 && Plain(w) && t * Imcu() + Imcu() <= |plane.rows|
      modifies buffer
      ensures forall k :: plane.rgroup <= k < plane.rgroup + Imcu() ==>
        See(w, k) == plane.rows[t * Imcu() + (k - plane.rgroup)]
      ensures forall k :: plane.rgroup + Imcu() <= k < Imcu() + 3 * plane.rgroup ==> See(w, k) == old(See(w, k))
    {
      hide Imcu, Pointer;
      var rg, start := plane.rgroup, t * Imcu();
      var xbuf := List(w);
      PointersInside(w);
      for i := 0 to Imcu()
        invariant forall k :: rg <= k < rg + i ==> buffer[xbuf[k]] == plane.rows[start + (k - rg)]
        invariant forall k :: rg + Imcu() <= k < Imcu() + 3 * rg ==> buffer[xbuf[k]] == old(buffer[xbuf[k]])
      {
        PointersDiffer(w, i);
        buffer[xbuf[rg + i]] := plane.rows[start + i];
      }
    }

    lemma PointersInside(w: nat)
      requires Plain(w)
      ensures forall k :: plane.rgroup <= k < Imcu() + 3 * plane.rgroup ==> List(w)[k] < buffer.Length
    {
    }

    lemma PointersDiffer(w: nat, i: nat)
      requires Plain(w) && i < Imcu()
      ensures forall k :: plane.rgroup <= k < Imcu() + 3 * plane.rgroup && k != plane.rgroup + i ==>
        List(w)[k] != List(w)[plane.rgroup + i]
    {
    }

    // ---- what the lists show ----

    /** The t-th iMCU row is in its list, and behind it the last two row groups of the one before. */
    ghost predicate Loaded(t: nat)
      reads buffer, xbuffer0, xbuffer1
    {
      && Sized() && 1 <= t && t * Imcu() <= |plane.rows|
      && (t - 1) * Imcu() >= 0 && (t >= 2 ==> (t - 1) * Imcu() >= Imcu())
      && var w, start := (t - 1) % 2, (t - 1) * Imcu();
         && (forall k :: plane.rgroup <= k < plane.rgroup + Imcu() ==>
           See(w, k) == plane.rows[start + (k - plane.rgroup)])
         && (t >= 2 ==> forall k :: plane.rgroup + Imcu() <= k < Imcu() + 3 * plane.rgroup ==>
               See(w, k) == plane.rows[start + (k - Imcu() - 3 * plane.rgroup)])
    }

    /** The last two row groups of the t-th iMCU row are where the other list will find them. */
    ghost predicate Kept(t: nat)
      reads buffer, xbuffer0, xbuffer1
    {
      && Sized() && 1 <= t && Imcu() <= t * Imcu() <= |plane.rows|
      && forall k :: plane.rgroup + Imcu() <= k < Imcu() + 3 * plane.rgroup ==>
           See(t % 2, k) == plane.rows[t * Imcu() + (k - Imcu() - 3 * plane.rgroup)]
    }

    lemma StepProduct(t: nat)
      requires t >= 1
      ensures t * Imcu() == (t - 1) * Imcu() + Imcu() && (t - 1) * Imcu() >= 0
    {
      assert t * Imcu() == (t - 1) * Imcu() + Imcu();
      MulMonotone(0, t - 1, Imcu());
    }

    lemma LoadedKept(t: nat)
      requires Loaded(t) && Plain(0) && Plain(1)
      ensures Kept(t)
    {
      StepProduct(t);
      var w, v, rg := (t - 1) % 2, t % 2, plane.rgroup;
      assert v == 1 - w;
      forall k | rg + Imcu() <= k < Imcu() + 3 * rg
        ensures See(v, k) == See(w, k - 2 * rg)
      {
        assert List(v)[k] == Pointer(v, k - rg) == Pointer(w, k - 3 * rg);
      }
    }

    /** Loading an iMCU row through its list leaves the two row groups that are still needed. */
    method LoadNext(w: nat, t: nat, ghost wrapped: bool)
      requires w == t % 2 && Lists(wrapped) && (t >= 1 ==> Kept(t)) && (t + 1) * Imcu() <= |plane.rows|
      modifies buffer
      ensures Loaded(t + 1)
    {
      StepProduct(t + 1);
      assert t >= 1 ==> Imcu() <= t * Imcu();
      Load(w, t);
    }

    /** From lo to hi, entry k shows the row at position base + k of the image; raw includes padding rows. */
    ghost predicate Visible(w: nat, base: int, lo: int, hi: int, raw: bool)
      requires Sized() && 0 <= lo && hi <= Imcu() + 4 * plane.rgroup && 0 < plane.height <= |plane.rows|
      reads buffer, xbuffer0, xbuffer1
    {
      forall k :: lo <= k < hi ==> See(w, k) == plane.RowShown(base + k, raw)
    }

    /** In a loaded iMCU row the first n rows, if they are real, and those above them are in place. */
    lemma RowsVisible(t: nat, n: nat)
      requires Loaded(t) && Lists(t >= 2) && 1 <= n <= Imcu() && (t - 1) * Imcu() + n <= plane.height <= |plane.rows|
      ensures Visible((t - 1) % 2, (t - 1) * Imcu() - plane.rgroup, 0, n + plane.rgroup, false)
    {
      hide Imcu, Pointer;
      StepProduct(t);
      var rg, w := plane.rgroup, (t - 1) % 2;
      forall k | 0 <= k < n + rg
        ensures See(w, k) == plane.RowShown((t - 1) * Imcu() - rg + k, false)
      {
        if k < rg {
          if t == 1 {
            assert See(w, k) == See(w, rg);
          } else {
            assert See(w, k) == See(w, k + Imcu() + 2 * rg);
          }
        }
      }
    }

    /** The last row group of an iMCU row has its context once the next one is there. */
    lemma PostponedVisible(t: nat, last: bool)
      requires t >= 2 && Loaded(t) && Lists(true) && 0 < plane.height <= |plane.rows|
      requires if last then (t - 1) * Imcu() < plane.height else t * Imcu() < plane.height
      ensures Visible((t - 1) % 2, (t - 2) * Imcu() - 3 * plane.rgroup, Imcu() + plane.rgroup,
        Imcu() + 4 * plane.rgroup, last)
    {
      StepProduct(t);
      StepProduct(t - 1);
      var rg, w := plane.rgroup, (t - 1) % 2;
      var start := (t - 1) * Imcu();
      assert start == (t - 2) * Imcu() + Imcu();
      forall k | Imcu() + rg <= k < Imcu() + 4 * rg
        ensures See(w, k) == plane.RowShown((t - 2) * Imcu() - 3 * rg + k, last)
      {
        if k >= Imcu() + 3 * rg {
          assert List(w)[k] == List(w)[k - Imcu() - 2 * rg];
          assert See(w, k) == See(w, k - Imcu() - 2 * rg);
        }
      }
    }

    /** set_bottom_pointers for one component. */
    method SetBottomPointers(w: nat, t: nat) returns (rowsLeft: nat)
      requires w == (t - 1) % 2 && Loaded(t) && Lists(t >= 2)
      requires (t - 1) * Imcu() < plane.height <= t * Imcu()
      modifies List(w)
      ensures rowsLeft == plane.height - (t - 1) * Imcu() && 1 <= rowsLeft <= Imcu()
      ensures Visible(w, (t - 1) * Imcu() - plane.rgroup, 0, rowsLeft + 3 * plane.rgroup, false)
    {
      hide Imcu, Pointer, Plane.RowShown, Plain, WrappedTo;
      var rg := plane.rgroup;
      StepProduct(t);
      ghost var start := (t - 1) * Imcu();
      RowsLeft(t);
      rowsLeft := plane.height % Imcu();
      if rowsLeft == 0 {
        rowsLeft := Imcu();
      }
      var xbuf := List(w);
      RowsVisible(t, rowsLeft);

      for i := 0 to rg * 2
        invariant forall k :: 0 <= k < rg + rowsLeft ==> xbuf[k] == old(xbuf[k])
        invariant forall k :: rg + rowsLeft <= k < rg + rowsLeft + i ==> xbuf[k] == xbuf[rg + rowsLeft - 1]
      {
        xbuf[rg + rowsLeft + i] := xbuf[rg + rowsLeft - 1];
      }
      forall k | 0 <= k < rg + rowsLeft
        ensures See(w, k) == plane.RowShown(start - rg + k, false)
      {
        assert See(w, k) == old(See(w, k));
      }
      Duplicated(w, start, rowsLeft);
    }

    /** The last real row, duplicated below, stands for all rows below the image. */
    lemma Duplicated(w: nat, start: nat, rowsLeft: nat)
      requires w <= 1 && Sized() && 1 <= rowsLeft <= Imcu() && plane.height == start + rowsLeft <= |plane.rows|
      requires Visible(w, start - plane.rgroup, 0, rowsLeft + plane.rgroup, false)
      requires forall k :: plane.rgroup + rowsLeft <= k < 3 * plane.rgroup + rowsLeft ==>
        List(w)[k] == List(w)[plane.rgroup + rowsLeft - 1]
      ensures Visible(w, start - plane.rgroup, 0, rowsLeft + 3 * plane.rgroup, false)
    {
      hide Imcu;
      var rg := plane.rgroup;
      forall k | 0 <= k < rowsLeft + 3 * rg
        ensures See(w, k) == plane.RowShown(start - rg + k, false)
      {
        if k >= rg + rowsLeft {
          assert See(w, k) == See(w, rg + rowsLeft - 1);
        }
      }
    }

    lemma RowsLeft(t: nat)
      requires Sized() && t >= 1 && (t - 1) * Imcu() < plane.height <= t * Imcu()
      ensures var left := plane.height - (t - 1) * Imcu();
        left == (if plane.height % Imcu() == 0 then Imcu() else plane.height % Imcu()) && 1 <= left <= Imcu()
    {
      StepProduct(t);
      var left := plane.height - (t - 1) * Imcu();
      if left == Imcu() {
        DivModUnique(plane.height, t, 0, Imcu());
      } else {
        DivModUnique(plane.height, t - 1, left, Imcu());
      }
    }

    /** Row group r of a list with the one before and the one after, as the postprocessor sees them. */
    function Window(w: nat, r: nat): seq<Row>
      requires Sized() && r <= m + 1
      reads buffer, xbuffer0, xbuffer1
    {
      WindowFits(r);
      seq(3 * plane.rgroup, j requires 0 <= j < 3 * plane.rgroup reads buffer, xbuffer0, xbuffer1 =>
        See(w, plane.rgroup * r + j))
    }

    lemma WindowFits(r: nat)
      requires r <= m + 1
      ensures 0 <= plane.rgroup * r <= Imcu() + plane.rgroup
    {
      Products();
      MulMonotone(r, m + 1, plane.rgroup);
    }

    /** Row groups lo up to hi of a list appear with the context of row groups first + lo up to first + hi. */
    ghost predicate Offers(w: nat, first: int, lo: nat, hi: nat, raw: bool)
      reads buffer, xbuffer0, xbuffer1
    {
      && Sized() && 0 < plane.height <= |plane.rows| && hi <= m + 2 && 0 <= first + lo
      && forall r :: lo <= r < hi ==> Window(w, r) == plane.Context(first + r, raw)
    }

    lemma OneWindow(w: nat, base: int, from: nat, to: nat, r: nat, group: nat, raw: bool)
      requires Sized() && 0 < plane.height <= |plane.rows| && r <= m + 1
      requires to <= Imcu() + 4 * plane.rgroup && Visible(w, base, from, to, raw)
      requires from <= plane.rgroup * r && plane.rgroup * r + 3 * plane.rgroup <= to
      requires base + plane.rgroup * r == plane.rgroup * group - plane.rgroup
      ensures Window(w, r) == plane.Context(group, raw)
    {
      hide Imcu, See, Plane.RowShown;
      var start, above := plane.rgroup * r, plane.rgroup * group - plane.rgroup;
      forall j | 0 <= j < 3 * plane.rgroup
        ensures Window(w, r)[j] == plane.Context(group, raw)[j]
      {
        assert See(w, start + j) == plane.RowShown(base + (start + j), raw);
      }
    }

    lemma VisibleOffers(w: nat, base: int, from: nat, to: nat, first: int, lo: nat, hi: nat, raw: bool)
      requires Sized() && 0 < plane.height <= |plane.rows| && hi <= m + 2 && 0 <= first + lo
      requires to <= Imcu() + 4 * plane.rgroup && Visible(w, base, from, to, raw)
      requires base == plane.rgroup * first - plane.rgroup && from <= plane.rgroup * lo
      requires lo < hi ==> plane.rgroup * (hi - 1) + 3 * plane.rgroup <= to
      ensures Offers(w, first, lo, hi, raw)
    {
      hide Imcu, See, Plane.RowShown, Plane.Context, Window, Visible;
      forall r | lo <= r < hi
        ensures Window(w, r) == plane.Context(first + r, raw)
      {
        MulMonotone(lo, r, plane.rgroup);
        MulMonotone(r, hi - 1, plane.rgroup);
        Distribute(plane.rgroup, first, r);
        OneWindow(w, base, from, to, r, first + r, raw);
      }
    }

    lemma Distribute(k: int, a: int, b: int)
      ensures k * (a + b) == k * a + k * b
    {
    }
  }
}
