/** The grid and visibility helpers of the visualisation: binning a
    position into a grid cell, the set of cells Alice's units can see
    (sampled on a lattice, de-duplicated by cell key in insertion order),
    and the range test and Bob-unit filter. Coordinates and radii are
    integers, so `Math.sqrt(d) <= R` is `R >= 0 && d <= R*R` and
    `Math.sqrt(d) < R` is `R > 0 && d < R*R`. */
module Visibility {
  import opened ModArith
  import opened Decimal
  import opened Seqs
  import opened Plane

  /** A grid cell: the point of integer cell coordinates. */
  type Cell = Pos

  /** The configured range and grid size. */
  const VisibilityRadius: int := 100
  const GridSize: int := 50

  /** `Math.floor(a / g)` for a nonzero integer g. */
  function FloorDiv(a: int, g: int): (q: int)
    requires g != 0
    ensures g > 0 ==> q * g <= a < q * g + g
    ensures g < 0 ==> q * g + g < a <= q * g
  {
    if g > 0 then a / g else (-a) / (-g)
  }

  /** The floor is the only integer with that bracketing. */
  lemma FloorDivUnique(a: int, g: int, c: int)
    requires g != 0
    requires g > 0 ==> c * g <= a < c * g + g
    requires g < 0 ==> c * g + g < a <= c * g
    ensures FloorDiv(a, g) == c
  {
    if g > 0 {
      DivModUnique(a, g, c, a - c * g);
    } else {
      DivModUnique(-a, -g, c, c * g - a);
    }
  }

  /** `binToGrid`: the cell holding a position. */
  function BinToGrid(p: Pos, g: int): (c: Cell)
    requires g != 0
    ensures g > 0 ==> c.x * g <= p.x < c.x * g + g && c.y * g <= p.y < c.y * g + g
    ensures g < 0 ==> c.x * g + g < p.x <= c.x * g && c.y * g + g < p.y <= c.y * g
  {
    Pos(FloorDiv(p.x, g), FloorDiv(p.y, g))
  }

  /** `${cell.x},${cell.y}`: the map key of a cell. */
  function CellKey(c: Cell): string {
    Pair(c.x, ',', c.y)
  }

  lemma CellKeyInjective(c: Cell, d: Cell)
    requires CellKey(c) == CellKey(d)
    ensures c == d
  {
    PairInjective(c.x, c.y, d.x, d.y, ',');
  }

  /** `Math.sqrt(dx*dx + dy*dy) <= R`. */
  predicate InCircle(dx: int, dy: int, r: int) {
    r >= 0 && dx * dx + dy * dy <= r * r
  }

  /** A square no larger than r*r has a root no larger than r. */
  lemma SquareBound(d: int, e: int, r: int)
    requires r >= 0 && d * d + e * e <= r * r
    ensures -r <= d <= r
  {
  }

  /** The values lo, lo+g, lo+2g, ... up to hi (`for (x = lo; x <= hi; x += g)`). */
  function Scan(lo: int, hi: int, g: int): (r: seq<int>)
    requires g > 0
    ensures forall i :: 0 <= i < |r| ==> r[i] == lo + i * g
    ensures forall x :: x in r <==> lo <= x <= hi && (x - lo) % g == 0
    decreases hi - lo
  {
    if lo > hi then []
    else
      var rest := Scan(lo + g, hi, g);
      forall x
        ensures (x in rest <==> lo + g <= x <= hi && (x - lo) % g == 0)
                && (lo < x < lo + g ==> (x - lo) % g != 0)
      {
        ModAddMultiple(x - lo, -1, g);
        if lo < x < lo + g {
          DivModUnique(x - lo, g, 0, x - lo);
        }
      }
      assert lo == lo + 0 * g;
      assert (lo - lo) % g == 0;
      [lo] + rest
  }

  /** Every lattice value up to hi is visited by the scan. */
  lemma ScanHits(lo: int, hi: int, g: int, i: nat)
    requires g > 0 && lo + i * g <= hi
    ensures lo + i * g in Scan(lo, hi, g)
  {
    ModAddMultiple(0, i, g);
    assert lo + i * g - lo == 0 + i * g;
  }

  /** The lattice point (ax − R + i·g, ay − R + j·g) around a unit. */
  function Lattice(a: Pos, r: int, g: int, i: int, j: int): Pos {
    Pos(a.x - r + i * g, a.y - r + j * g)
  }

  /** The y values the inner loop at column x keeps: those of points
      inside the circle around a, in loop order. */
  function ColumnYs(a: Pos, x: int, r: int, g: int): seq<int>
    requires g > 0
  {
    Filter(Scan(a.y - r, a.y + r, g), y => InCircle(x - a.x, y - a.y, r))
  }

  /** The inner loop at column x: the cells of the kept points, in y order. */
  function Column(a: Pos, x: int, r: int, g: int): seq<Cell>
    requires g > 0
  {
    MapSeq(ColumnYs(a, x, r, g), y => BinToGrid(Pos(x, y), g))
  }

  /** The cells sampled around one unit, column by column. */
  function UnitSamples(a: Pos, r: int, g: int): seq<Cell>
    requires g > 0
  {
    FlatMap(Scan(a.x - r, a.x + r, g), x => Column(a, x, r, g))
  }

  /** Every sampled cell, unit by unit, in the order the loops visit them. */
  function AllSamples(units: seq<Unit>, r: int, g: int): seq<Cell>
    requires g > 0
  {
    FlatMap(units, (u: Unit) => UnitSamples(u.pos, r, g))
  }

  /** c is the cell of a lattice point around a that lies in the circle. */
  ghost predicate Reaches(a: Pos, r: int, g: int, c: Cell)
    requires g > 0
  {
    exists i: nat, j: nat :: InCircle(i * g - r, j * g - r, r) && c == BinToGrid(Lattice(a, r, g, i, j), g)
  }

  /** Every cell of a column is the cell of an in-circle lattice point
      with that x. */
  lemma ColumnSound(a: Pos, x: int, r: int, g: int, c: Cell)
    requires g > 0 && c in Column(a, x, r, g)
    ensures exists j: nat :: InCircle(x - a.x, j * g - r, r) && c == BinToGrid(Pos(x, a.y - r + j * g), g)
  {
    var ys := Scan(a.y - r, a.y + r, g);
    var kept := ColumnYs(a, x, r, g);
    var col := Column(a, x, r, g);
    var k :| 0 <= k < |col| && col[k] == c;
    var y := kept[k];
    assert y in ys && InCircle(x - a.x, y - a.y, r);
    var i :| 0 <= i < |ys| && ys[i] == y;
    assert y == a.y - r + i * g;
    assert InCircle(x - a.x, i * g - r, r) && c == BinToGrid(Pos(x, a.y - r + i * g), g);
  }

  /** The cell of every in-circle lattice point with that x is in the
      column: the circle keeps y within a.y + R, where the loop stops. */
  lemma ColumnComplete(a: Pos, x: int, r: int, g: int, j: nat)
    requires g > 0 && InCircle(x - a.x, j * g - r, r)
    ensures BinToGrid(Pos(x, a.y - r + j * g), g) in Column(a, x, r, g)
  {
    var kept := ColumnYs(a, x, r, g);
    var y := a.y - r + j * g;
    SquareBound(j * g - r, x - a.x, r);
    ScanHits(a.y - r, a.y + r, g, j);
    assert y in kept;
    var k :| 0 <= k < |kept| && kept[k] == y;
    assert Column(a, x, r, g)[k] == BinToGrid(Pos(x, y), g);
  }

  /** Every cell sampled around a unit is reached from it. */
  lemma UnitSamplesSound(a: Pos, r: int, g: int, c: Cell)
    requires g > 0 && c in UnitSamples(a, r, g)
    ensures Reaches(a, r, g, c)
  {
    var xs := Scan(a.x - r, a.x + r, g);
    var i :| 0 <= i < |xs| && c in Column(a, xs[i], r, g);
    ColumnSound(a, xs[i], r, g, c);
    var j: nat :| InCircle(xs[i] - a.x, j * g - r, r) && c == BinToGrid(Pos(xs[i], a.y - r + j * g), g);
    assert Lattice(a, r, g, i, j) == Pos(xs[i], a.y - r + j * g);
    assert InCircle(i * g - r, j * g - r, r);
  }

  /** Every cell reached from a unit is sampled around it: the circle keeps
      x within a.x + R, where the outer loop stops. */
  lemma UnitSamplesComplete(a: Pos, r: int, g: int, c: Cell)
    requires g > 0 && Reaches(a, r, g, c)
    ensures c in UnitSamples(a, r, g)
  {
    var xs := Scan(a.x - r, a.x + r, g);
    var i: nat, j: nat :| InCircle(i * g - r, j * g - r, r) && c == BinToGrid(Lattice(a, r, g, i, j), g);
    var x := a.x - r + i * g;
    SquareBound(i * g - r, j * g - r, r);
    ScanHits(a.x - r, a.x + r, g, i);
    var i' :| 0 <= i' < |xs| && xs[i'] == x;
    ColumnComplete(a, x, r, g, j);
    assert Lattice(a, r, g, i, j) == Pos(x, a.y - r + j * g);
    assert c in Column(a, xs[i'], r, g);
    InUnitSamples(a, r, g, i', c);
  }

  lemma InUnitSamples(a: Pos, r: int, g: int, i: int, c: Cell)
    requires g > 0 && 0 <= i < |Scan(a.x - r, a.x + r, g)|
    requires c in Column(a, Scan(a.x - r, a.x + r, g)[i], r, g)
    ensures c in UnitSamples(a, r, g)
  {
    FlatMapHas(Scan(a.x - r, a.x + r, g), x => Column(a, x, r, g), i, c);
  }

  /** The sampled cells are exactly those some unit reaches. */
  lemma AllSamplesMember(units: seq<Unit>, r: int, g: int, c: Cell)
    requires g > 0
    ensures c in AllSamples(units, r, g) <==> exists i :: 0 <= i < |units| && Reaches(units[i].pos, r, g, c)
  {
    forall i | 0 <= i < |units|
      ensures c in UnitSamples(units[i].pos, r, g) <==> Reaches(units[i].pos, r, g, c)
    {
      if c in UnitSamples(units[i].pos, r, g) {
        UnitSamplesSound(units[i].pos, r, g, c);
      }
      if Reaches(units[i].pos, r, g, c) {
        UnitSamplesComplete(units[i].pos, r, g, c);
      }
    }
  }

  /** One entry of the JavaScript `Map`: a cell key and its cell. */
  datatype Entry = Entry(key: string, cell: Cell)

  /** `map.has(key)`. */
  predicate Has(m: seq<Entry>, key: string) {
    exists i :: 0 <= i < |m| && m[i].key == key
  }

  /** `if (!map.has(cellKey)) map.set(cellKey, cell)`: a new key goes to
      the end; an existing one leaves the map unchanged. */
  function Put(m: seq<Entry>, c: Cell): seq<Entry> {
    if Has(m, CellKey(c)) then m else m + [Entry(CellKey(c), c)]
  }

  /** Inserting a sequence of cells in order. */
  function InsertAll(m: seq<Entry>, cells: seq<Cell>): seq<Entry> {
    if |cells| == 0 then m else Put(InsertAll(m, cells[..|cells| - 1]), cells[|cells| - 1])
  }

  /** `Array.from(map.values())`: the cells in insertion order. */
  function Values(m: seq<Entry>): seq<Cell> {
    MapSeq(m, (e: Entry) => e.cell)
  }

  /** Every entry is keyed by its own cell's key. */
  predicate WellKeyed(m: seq<Entry>) {
    forall i :: 0 <= i < |m| ==> m[i].key == CellKey(m[i].cell)
  }

  /** `generateVisibilityGridSet`: the sampled cells of all of Alice's
      units, each kept once, in order of first insertion. */
  function GridSet(units: seq<Unit>, r: int, g: int): seq<Cell>
    requires g > 0
  {
    Values(InsertAll([], AllSamples(units, r, g)))
  }

  /** In a well-keyed map, a cell's key is present exactly when the cell is. */
  lemma HasIffValue(m: seq<Entry>, c: Cell)
    requires WellKeyed(m)
    ensures Has(m, CellKey(c)) <==> c in Values(m)
  {
    if Has(m, CellKey(c)) {
      var i :| 0 <= i < |m| && m[i].key == CellKey(c);
      CellKeyInjective(m[i].cell, c);
      assert Values(m)[i] == c;
    }
    if c in Values(m) {
      var i :| 0 <= i < |m| && Values(m)[i] == c;
      assert m[i].key == CellKey(c);
    }
  }

  /** Inserting cells into an empty map keeps the first occurrence of each,
      in order: keys identify cells because cell keys are injective. */
  lemma {:induction false} InsertAllDedup(cells: seq<Cell>)
    ensures WellKeyed(InsertAll([], cells))
    ensures Values(InsertAll([], cells)) == Dedup(cells)
  {
    if |cells| > 0 {
      var init, c := cells[..|cells| - 1], cells[|cells| - 1];
      InsertAllDedup(init);
      var m := InsertAll([], init);
      HasIffValue(m, c);
      assert cells == init + [c];
      DedupSnoc(init, c);
      ValuesSnoc(m, Entry(CellKey(c), c));
    }
  }

  lemma ValuesSnoc(m: seq<Entry>, e: Entry)
    ensures Values(m + [e]) == Values(m) + [e.cell]
  {
  }

  /** The grid set is the samples with repeats removed, first occurrence
      first: pairwise distinct, nothing lost, nothing added, and in the
      order the loops first reach each cell (over units, then x, then y). */
  lemma GridSetIsDedup(units: seq<Unit>, r: int, g: int)
    requires g > 0
    ensures GridSet(units, r, g) == Dedup(AllSamples(units, r, g))
    ensures NoDup(GridSet(units, r, g))
  {
    InsertAllDedup(AllSamples(units, r, g));
  }

  /** A cell is in the grid set exactly when it is the cell of a lattice
      point (ax − R + i·g, ay − R + j·g), i, j >= 0, within distance R of
      some unit of Alice. */
  lemma GridSetMember(units: seq<Unit>, r: int, g: int, c: Cell)
    requires g > 0
    ensures c in GridSet(units, r, g) <==> exists i :: 0 <= i < |units| && Reaches(units[i].pos, r, g, c)
  {
    GridSetIsDedup(units, r, g);
    AllSamplesMember(units, r, g, c);
  }

  /** When g divides R, the lattice around a unit passes through the unit
      itself, so the unit's own cell is visible; the configured R = 100,
      g = 50 is such a case. */
  lemma OwnCell(units: seq<Unit>, r: int, g: int, k: int)
    requires g > 0 && r >= 0 && r % g == 0 && 0 <= k < |units|
    ensures BinToGrid(units[k].pos, g) in GridSet(units, r, g)
  {
    var a := units[k].pos;
    var i: nat := r / g;
    assert i * g == r;
    assert Lattice(a, r, g, i, i) == a;
    assert InCircle(i * g - r, i * g - r, r);
    assert Reaches(a, r, g, BinToGrid(a, g));
    GridSetMember(units, r, g, BinToGrid(a, g));
  }

  /** `isWithinVisibility`: the two units are strictly closer than R. */
  predicate IsWithinVisibility(a: Pos, b: Pos, r: int) {
    var dx, dy := a.x - b.x, a.y - b.y;
    r > 0 && dx * dx + dy * dy < r * r
  }

  /** The range test does not depend on which unit is Alice's. */
  lemma WithinSymmetric(a: Pos, b: Pos, r: int)
    ensures IsWithinVisibility(a, b, r) <==> IsWithinVisibility(b, a, r)
  {
    assert (a.x - b.x) * (a.x - b.x) == (b.x - a.x) * (b.x - a.x);
    assert (a.y - b.y) * (a.y - b.y) == (b.y - a.y) * (b.y - a.y);
  }

  /** The strict range test implies the inclusive sampling test, but not
      conversely: when g divides R, the lattice point at exactly distance R
      to the right of a unit is sampled, yet it is not within visibility. */
  lemma BoundarySampledNotVisible(units: seq<Unit>, r: int, g: int, k: int)
    requires g > 0 && r > 0 && r % g == 0 && 0 <= k < |units|
    ensures var a := units[k].pos;
            var edge := Pos(a.x + r, a.y);
            && BinToGrid(edge, g) in GridSet(units, r, g)
            && !IsWithinVisibility(a, edge, r)
  {
    var a := units[k].pos;
    var edge := Pos(a.x + r, a.y);
    EdgeReached(a, r, g);
    GridSetMember(units, r, g, BinToGrid(edge, g));
    EdgeDistance(a, r);
  }

  /** (a.x + R, a.y) is at distance exactly R from a. */
  lemma EdgeDistance(a: Pos, r: int)
    requires r > 0
    ensures InCircle(r, 0, r) && !IsWithinVisibility(a, Pos(a.x + r, a.y), r)
  {
    var dx := a.x - (a.x + r);
    assert dx == -r;
    assert dx * dx == r * r;
  }

  /** The lattice around a passes through (a.x + R, a.y) when g divides R. */
  lemma EdgeReached(a: Pos, r: int, g: int)
    requires g > 0 && r > 0 && r % g == 0
    ensures Reaches(a, r, g, BinToGrid(Pos(a.x + r, a.y), g))
  {
    var q: nat := r / g;
    assert q * g == r;
    assert (2 * q) * g == 2 * r;
    assert Lattice(a, r, g, 2 * q, q) == Pos(a.x + r, a.y);
    assert InCircle((2 * q) * g - r, q * g - r, r);
  }

  lemma WithinImpliesInCircle(a: Pos, b: Pos, r: int)
    requires IsWithinVisibility(a, b, r)
    ensures InCircle(b.x - a.x, b.y - a.y, r)
  {
    WithinSymmetric(a, b, r);
  }

  /** `aliceUnits.some(a => isWithinVisibility(a, b, R))`. */
  function SeenByAny(alice: seq<Unit>, b: Pos, r: int): (seen: bool)
    ensures seen <==> exists i :: 0 <= i < |alice| && IsWithinVisibility(alice[i].pos, b, r)
  {
    if |alice| == 0 then false
    else if IsWithinVisibility(alice[0].pos, b, r) then true
    else
      var rest := SeenByAny(alice[1..], b, r);
      assert rest <==> exists i :: 1 <= i < |alice| && IsWithinVisibility(alice[i].pos, b, r) by {
        if rest {
          var i :| 0 <= i < |alice[1..]| && IsWithinVisibility(alice[1..][i].pos, b, r);
          assert alice[1..][i] == alice[i + 1];
        }
        if i :| 1 <= i < |alice| && IsWithinVisibility(alice[i].pos, b, r) {
          assert alice[1..][i - 1] == alice[i];
        }
      }
      rest
  }

  /** `visbilityFunction`: the ids of Bob's units within range 100 of some
      unit of Alice, in Bob's order. */
  function VisibleIds(bob: seq<Unit>, alice: seq<Unit>): seq<string> {
    MapSeq(Filter(bob, (b: Unit) => SeenByAny(alice, b.pos, VisibilityRadius)), (b: Unit) => b.id)
  }

  /** An id is reported exactly when a Bob unit with that id is strictly
      within range of some Alice unit; at most one id per Bob unit. */
  lemma VisibleIdsMember(bob: seq<Unit>, alice: seq<Unit>, id: string)
    ensures |VisibleIds(bob, alice)| <= |bob|
    ensures id in VisibleIds(bob, alice) <==>
            exists j, i :: 0 <= j < |bob| && 0 <= i < |alice| && bob[j].id == id
                           && IsWithinVisibility(alice[i].pos, bob[j].pos, VisibilityRadius)
  {
    var kept := Filter(bob, (b: Unit) => SeenByAny(alice, b.pos, VisibilityRadius));
    if id in VisibleIds(bob, alice) {
      var k :| 0 <= k < |kept| && kept[k].id == id;
      assert kept[k] in bob;
    }
    if exists j, i :: 0 <= j < |bob| && 0 <= i < |alice| && bob[j].id == id
                      && IsWithinVisibility(alice[i].pos, bob[j].pos, VisibilityRadius) {
      var j, i :| 0 <= j < |bob| && 0 <= i < |alice| && bob[j].id == id
                  && IsWithinVisibility(alice[i].pos, bob[j].pos, VisibilityRadius);
      assert bob[j] in kept;
      var k :| 0 <= k < |kept| && kept[k] == bob[j];
      assert VisibleIds(bob, alice)[k] == id;
    }
  }

  /** Bob's order is kept: the ids of a concatenation are the
      concatenation of the ids. */
  lemma VisibleIdsAppend(bob1: seq<Unit>, bob2: seq<Unit>, alice: seq<Unit>)
    ensures VisibleIds(bob1 + bob2, alice) == VisibleIds(bob1, alice) + VisibleIds(bob2, alice)
  {
    var p := (b: Unit) => SeenByAny(alice, b.pos, VisibilityRadius);
    FilterAppend(bob1, bob2, p);
    MapSeqAppend(Filter(bob1, p), Filter(bob2, p), (b: Unit) => b.id);
  }
}
