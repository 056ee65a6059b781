/** How sample rows are counted in row groups and iMCU rows, and the context that each row group should have. */
module RowGroups {
  import opened Powers
  import opened ByteStream

  /** The samples of one row of a component. */
  type Row = seq<byte>

  /** jdiv_round_up. */
  function DivRoundUp(a: nat, b: nat): nat
    requires b > 0
  {
    (a + b - 1) / b
  }

  lemma RoundUpIs(a: nat, b: nat)
    requires b > 0
    ensures (DivRoundUp(a, b) - 1) * b < a <= DivRoundUp(a, b) * b
    ensures a > 0 ==> DivRoundUp(a, b) > 0
  {
    var q := DivRoundUp(a, b);
    assert a + b - 1 == q * b + (a + b - 1) % b;
    assert (q - 1) * b == q * b - b;
  }

  lemma RoundUpUnique(a: nat, b: nat, q: int)
    requires b > 0 && (q - 1) * b < a <= q * b
    ensures q == DivRoundUp(a, b)
  {
    assert (q - 1) * b == q * b - b;
    DivModUnique(a + b - 1, q, a + b - 1 - q * b, b);
  }

  /** The sizes that all components share: unit is the height of an unscaled iMCU row, m its number of row groups. */
  datatype Geometry = Geometry(imageHeight: nat, unit: nat, m: nat) {
    predicate Ok() {
      imageHeight > 0 && unit > 0 && m >= 2
    }

    /** total_iMCU_rows. */
    function Total(): nat
      requires Ok()
    {
      DivRoundUp(imageHeight, unit)
    }

    /** The row groups that hold real rows. */
    function Groups(): nat
      requires Ok()
    {
      DivRoundUp(imageHeight * m, unit)
    }

    /** The row groups of the last iMCU row that hold real rows. */
    function LastGroups(): int
      requires Ok()
    {
      Groups() - (Total() - 1) * m
    }

    lemma GroupsInRows()
      requires Ok()
      ensures Total() >= 1 && 1 <= LastGroups() <= m
    {
      RoundUpIs(imageHeight, unit);
      RoundUpIs(imageHeight * m, unit);
      GroupsBetween(imageHeight, unit, m, Total(), Groups());
    }
  }

  lemma GroupsBetween(h: nat, u: nat, m: nat, t: nat, g: nat)
    requires u > 0 && m > 0 && (t - 1) * u < h <= t * u && (g - 1) * u < h * m <= g * u
    ensures (t - 1) * m < g <= t * m
  {
    MulStrict((t - 1) * u, h, m);
    MulStrict(h, t * u, m);
    assert (t - 1) * u * m == (t - 1) * m * u && t * u * m == t * m * u;
    MulStrict((t - 1) * m, g, u);
    MulStrict(g - 1, t * m, u);
  }

  /**
    One component: the rows of its row groups, its real height, and the rows that the coefficient controller
    delivers, padding included.
  */
  datatype Plane = Plane(rgroup: nat, height: nat, rows: seq<Row>) {
    /** v_samp_factor * DCT_scaled_size is rgroup * m, so the component is as high as this. */
    predicate Of(g: Geometry)
      requires g.Ok()
    {
      && rgroup >= 1 && height == DivRoundUp(g.imageHeight * (rgroup * g.m), g.unit)
      && |rows| == g.Total() * (rgroup * g.m)
    }

    /** The real row at a position, the first row above the image, the last one below it. */
    function RowAt(p: int): Row
      requires 0 < height <= |rows|
    {
      if p < 0 then rows[0] else if p < height then rows[p] else rows[height - 1]
    }

    /** The same, or the row that was delivered there even if it is padding. */
    function RowShown(p: int, raw: bool): Row
      requires 0 < height <= |rows|
    {
      if raw && 0 <= p < |rows| then rows[p] else RowAt(p)
    }

    /** A row group with the group above and the group below it. */
    function Context(group: nat, raw: bool): seq<Row>
      requires 0 < height <= |rows|
    {
      seq(3 * rgroup, j requires 0 <= j < 3 * rgroup => RowShown(rgroup * group - rgroup + j, raw))
    }
  }

  /** Every component has the same number of real row groups, and of rows in the iMCU rows before the last. */
  lemma PlaneGroups(g: Geometry, p: Plane)
    requires g.Ok() && p.Of(g)
    ensures DivRoundUp(p.height, p.rgroup) == g.Groups()
    ensures (g.Total() - 1) * (p.rgroup * g.m) < p.height <= g.Total() * (p.rgroup * g.m)
  {
    RoundUpIs(g.imageHeight, g.unit);
    RoundUpIs(g.imageHeight * g.m, g.unit);
    RoundUpIs(g.imageHeight * (p.rgroup * g.m), g.unit);
    assert g.imageHeight * (p.rgroup * g.m) == g.imageHeight * g.m * p.rgroup;
    assert 1 <= p.rgroup * g.m by {
      MulMonotone(1, p.rgroup, g.m);
    }
    GroupsBetween(g.imageHeight, g.unit, p.rgroup * g.m, g.Total(), p.height);
    GroupsBetween(g.imageHeight * g.m, g.unit, p.rgroup, g.Groups(), p.height);
    RoundUpUnique(p.height, p.rgroup, g.Groups());
  }

  /** What is left of a component in the last iMCU row, in rows and in row groups. */
  lemma LastRows(g: Geometry, p: Plane)
    requires g.Ok() && p.Of(g)
    ensures var imcu := p.rgroup * g.m; var left := p.height - (g.Total() - 1) * imcu;
      && imcu > 0 && 1 <= left <= imcu
      && left == (if p.height % imcu == 0 then imcu else p.height % imcu)
      && g.LastGroups() == (left - 1) / p.rgroup + 1
  {
    hide DivRoundUp;
    PlaneGroups(g, p);
    var imcu := p.rgroup * g.m;
    MulMonotone(1, p.rgroup, g.m);
    var left := p.height - (g.Total() - 1) * imcu;
    assert g.Total() * imcu == (g.Total() - 1) * imcu + imcu;
    if left == imcu {
      DivModUnique(p.height, g.Total(), 0, imcu);
    } else {
      DivModUnique(p.height, g.Total() - 1, left, imcu);
    }
    RoundUpIs(p.height, p.rgroup);
    RestOfGroups(p.height, p.rgroup, g.Groups(), (g.Total() - 1) * g.m, left);
    assert (g.Total() - 1) * imcu == (g.Total() - 1) * g.m * p.rgroup;
  }

  lemma RestOfGroups(h: nat, r: nat, g: int, before: int, left: int)
    requires r > 0 && left >= 1 && (g - 1) * r < h <= g * r && h == before * r + left
    ensures g - before == (left - 1) / r + 1
  {
    assert (g - before - 1) * r == (g - 1) * r - before * r;
    assert (g - before) * r == g * r - before * r;
    RestExact(left, r, g - before);
  }

  lemma RestExact(left: int, r: nat, n: int)
    requires r > 0 && left >= 1 && (n - 1) * r < left <= n * r
    ensures n == (left - 1) / r + 1
  {
    assert (n - 1) * r == n * r - r;
    DivModUnique(left - 1, n - 1, left - 1 - (n - 1) * r, r);
  }
}
