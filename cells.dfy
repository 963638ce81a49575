/** Cells: the lattice unit of a tree, shared by both programs of the repository
    (main.py's and show.py's `Cell`), with its light level, its energy gain under
    shading and the settlement rules of `Tree.update_energy`. */
module Cells {

  /** The maturity flag of a cell. The source spells it '0' / '1' (main.py) and
      0 / 1 (show.py): a Growing cell may still grow, a Grown one is harvested. */
  datatype Maturity = Growing | Grown

  /** A cell at column `x`, row `y` (row 0 is the top). `G` is what the cell keeps of
      its genome: main.py stores the gene record itself, show.py its index. */
  datatype Cell<G> = Cell(x: int, y: int, gene: G, state: Maturity, energy: int)

  /** Highest light level a cell can see. */
  const MaxLevel := 16
  /** Cells stacked above a cell that shade it completely. */
  const ShadeLimit := 3
  /** Energy every cell of a tree costs per settlement. */
  const Upkeep := 13

  /** Energy a cell must hold to grow, and pays once when it does (`growth_energy` in
      main.py, the literal 18 in show.py). */
  const GrowthEnergy := 18

  /** A freshly created cell: growing, with no energy banked. */
  function Sprout<G>(x: int, y: int, gene: G): (c: Cell<G>)
    ensures c.x == x && c.y == y && c.gene == gene
    ensures c.state == Growing && c.energy == 0
  {
    Cell(x, y, gene, Growing, 0)
  }

  /** A cell that pays for growth: 18 energy gone, and it is Grown. */
  function Paid<G>(c: Cell<G>): (r: Cell<G>)
    ensures r.x == c.x && r.y == c.y && r.gene == c.gene
    ensures r.state == Grown && r.energy == c.energy - GrowthEnergy
  {
    c.(energy := c.energy - GrowthEnergy, state := Grown)
  }

  /** A cell that will still grow in the current pass. */
  predicate Rich<G>(c: Cell<G>)
  {
    c.state == Growing && c.energy >= GrowthEnergy
  }

  function RichCount<G>(cs: seq<Cell<G>>): (n: nat)
    ensures n <= |cs|
  {
    if cs == [] then 0 else (if Rich(cs[0]) then 1 else 0) + RichCount(cs[1..])
  }

  lemma {:induction false} RichCountAppend<G>(a: seq<Cell<G>>, b: seq<Cell<G>>)
    ensures RichCount(a + b) == RichCount(a) + RichCount(b)
    decreases |a|
  {
    if a == [] {
      assert a + b == b;
    } else {
      assert (a + b)[1..] == a[1..] + b;
      RichCountAppend(a[1..], b);
    }
  }

  lemma {:induction false} RichCountNone<G>(s: seq<Cell<G>>)
    requires forall k :: 0 <= k < |s| ==> !Rich(s[k])
    ensures RichCount(s) == 0
    decreases |s|
  {
    if s != [] {
      RichCountNone(s[1..]);
    }
  }

  /** A grow turn at `i` that settles or pays for cell `i`, changes no other cell and
      appends at most four fresh cells lowers the measure of the pass: the cells left to
      visit, each cell that will still grow weighted by the children it may add. */
  lemma MeasureStep<G>(cs: seq<Cell<G>>, r: seq<Cell<G>>, i: nat)
    requires i < |cs| <= |r| <= |cs| + 4
    requires forall k :: 0 <= k < |cs| && k != i ==> r[k] == cs[k]
    requires !Rich(r[i]) && (|r| > |cs| ==> Rich(cs[i]))
    requires forall k :: |cs| <= k < |r| ==> r[k].state == Growing && r[k].energy == 0
    ensures |r| - (i + 1) + 4 * RichCount(r[i + 1..]) < |cs| - i + 4 * RichCount(cs[i..])
  {
    assert cs[i..] == [cs[i]] + cs[i + 1..];
    RichCountAppend([cs[i]], cs[i + 1..]);
    var tail := r[|cs|..];
    assert r[i + 1..] == cs[i + 1..] + tail;
    RichCountAppend(cs[i + 1..], tail);
    RichCountNone(tail);
  }

  /** `update_level`: the light level of row `y` on a grid of `rows` rows under
      ambient light `sun`, capped at MaxLevel. */
  function Level(rows: int, sun: int, y: int): (r: int)
    ensures r <= MaxLevel && r <= rows - y - 1 + sun
    ensures r == MaxLevel || r == rows - y - 1 + sun
  {
    var fromGround := rows - y - 1;
    var level := fromGround + sun;
    if level > MaxLevel then MaxLevel else level
  }

  /** A higher cell (smaller row) never sees less light, and more sun never gives less. */
  lemma LevelMonotone(rows: int, sun: int, sun': int, y: int, y': int)
    requires y' <= y && sun <= sun'
    ensures Level(rows, sun, y) <= Level(rows, sun', y')
  {
  }

  /** Light reaching a cell inside the grid is at least the ambient sun level when
      that is below the cap. */
  lemma LevelOnGrid(rows: int, sun: int, y: int)
    requires 0 <= y < rows && 0 <= sun
    ensures Level(rows, sun, y) >= 0
    ensures sun <= MaxLevel ==> Level(rows, sun, y) >= sun
  {
  }

  /** The energy a cell gains in one `update_energy` call: its level times the
      part of ShadeLimit not taken by the `upper` cells above it. */
  function Gain(level: int, upper: int): (r: int)
    ensures upper >= ShadeLimit ==> r == 0
    ensures level >= 0 && upper >= 0 ==> 0 <= r <= ShadeLimit * level
    ensures upper == 0 ==> r == ShadeLimit * level
  {
    var open := if ShadeLimit - upper > 0 then ShadeLimit - upper else 0;
    assert level >= 0 && upper >= 0 ==> 0 <= level * open <= level * ShadeLimit by {
      if level >= 0 && upper >= 0 { assert 0 <= open <= ShadeLimit; }
    }
    level * open
  }

  /** Shading never helps: one more cell above never raises the gain. */
  lemma GainAntitone(level: int, upper: int, upper': int)
    requires 0 <= level && upper <= upper'
    ensures Gain(level, upper') <= Gain(level, upper)
  {
    var open := if ShadeLimit - upper > 0 then ShadeLimit - upper else 0;
    var open' := if ShadeLimit - upper' > 0 then ShadeLimit - upper' else 0;
    assert open' <= open;
    assert level * open' <= level * open;
  }

  /** `how_mutch_upper`: the number of cells of `cs` in column `x` strictly above row `y`
      (counted with multiplicity, as the source's loop does). */
  function CountAbove<G>(cs: seq<Cell<G>>, x: int, y: int): (r: nat)
    ensures r <= |cs|
  {
    if cs == [] then 0
    else
      var last := cs[|cs| - 1];
      CountAbove(cs[..|cs| - 1], x, y) + (if last.x == x && last.y < y then 1 else 0)
  }

  /** Counting over two pieces adds up. */
  lemma {:induction false} CountAboveAppend<G>(a: seq<Cell<G>>, b: seq<Cell<G>>, x: int, y: int)
    ensures CountAbove(a + b, x, y) == CountAbove(a, x, y) + CountAbove(b, x, y)
    decreases |b|
  {
    if b == [] {
      assert a + b == a;
    } else {
      assert (a + b)[..|a + b| - 1] == a + b[..|b| - 1];
      CountAboveAppend(a, b[..|b| - 1], x, y);
    }
  }

  /** Only positions count: cells that differ in energy, maturity or gene shade alike. */
  predicate SamePlaces<G>(a: seq<Cell<G>>, b: seq<Cell<G>>)
  {
    |a| == |b| && forall k :: 0 <= k < |a| ==> a[k].x == b[k].x && a[k].y == b[k].y
  }

  lemma {:induction false} CountAbovePlaces<G>(a: seq<Cell<G>>, b: seq<Cell<G>>, x: int, y: int)
    requires SamePlaces(a, b)
    ensures CountAbove(a, x, y) == CountAbove(b, x, y)
    decreases |a|
  {
    if a != [] {
      CountAbovePlaces(a[..|a| - 1], b[..|b| - 1], x, y);
    }
  }

  /** A count of ShadeLimit or more cells above leaves a cell no gain at all. */
  lemma FullShadeNoGain<G>(cs: seq<Cell<G>>, level: int, x: int, y: int)
    requires CountAbove(cs, x, y) >= ShadeLimit
    ensures Gain(level, CountAbove(cs, x, y)) == 0
  {
  }

  /** One `update_energy` of cell `c`: its energy grows by the gain of its level
      under `upper` shading cells. */
  function Accrue<G>(c: Cell<G>, level: int, upper: int): (r: Cell<G>)
    ensures r.x == c.x && r.y == c.y && r.gene == c.gene && r.state == c.state
    ensures level >= 0 && upper >= 0 ==> c.energy <= r.energy <= c.energy + ShadeLimit * level
    ensures upper >= ShadeLimit ==> r == c
  {
    c.(energy := c.energy + Gain(level, upper))
  }

  // ---------------------------------------------------------------------------
  // Settlement: `Tree.update_energy` and `Tree.dell_cells_energy`

  /** `getting_energy`: the summed energy of the Grown cells. */
  function SumGrown<G>(cs: seq<Cell<G>>): int
  {
    if cs == [] then 0
    else SumGrown(cs[..|cs| - 1]) + (if cs[|cs| - 1].state == Grown then cs[|cs| - 1].energy else 0)
  }

  /** The summed energy of all cells of a tree. */
  function TotalEnergy<G>(cs: seq<Cell<G>>): int
  {
    if cs == [] then 0 else TotalEnergy(cs[..|cs| - 1]) + cs[|cs| - 1].energy
  }

  /** A cell after harvesting: Grown cells give up their energy. */
  function Harvested<G>(c: Cell<G>): Cell<G>
  {
    if c.state == Grown then c.(energy := 0) else c
  }

  /** `dell_cells_energy` on a whole list: every Grown cell zeroed, the rest untouched. */
  function Harvest<G>(cs: seq<Cell<G>>): (r: seq<Cell<G>>)
    ensures |r| == |cs|
  {
    seq(|cs|, k requires 0 <= k < |cs| => Harvested(cs[k]))
  }

  /** A lone Growing cell has nothing to collect and is left as it is by settling. */
  lemma SproutSettled<G>(c: Cell<G>)
    requires c.state == Growing
    ensures SumGrown([c]) == 0 && Harvest([c]) == [c]
  {
    assert [c][..0] == [];
  }

  lemma HarvestPrefix<G>(cs: seq<Cell<G>>, n: nat)
    requires n <= |cs|
    ensures Harvest(cs)[..n] == Harvest(cs[..n])
  {
  }

  /** After harvesting, every Grown cell holds 0, Growing cells are untouched, and
      nothing moves or changes maturity. */
  lemma HarvestCells<G>(cs: seq<Cell<G>>)
    ensures SamePlaces(Harvest(cs), cs)
    ensures forall k :: 0 <= k < |cs| ==>
      Harvest(cs)[k].state == cs[k].state && Harvest(cs)[k].gene == cs[k].gene &&
      (cs[k].state == Grown ==> Harvest(cs)[k].energy == 0) &&
      (cs[k].state == Growing ==> Harvest(cs)[k] == cs[k])
  {
  }

  /** The harvest moves exactly `getting_energy` out of the cells: what the cells hold
      afterwards is their total before minus the Grown cells' sum, and no Grown energy is
      left to harvest a second time. */
  lemma {:induction false} HarvestLedger<G>(cs: seq<Cell<G>>)
    ensures TotalEnergy(Harvest(cs)) == TotalEnergy(cs) - SumGrown(cs)
    ensures SumGrown(Harvest(cs)) == 0
    decreases |cs|
  {
    if cs != [] {
      var n := |cs| - 1;
      HarvestLedger(cs[..n]);
      HarvestPrefix(cs, n);
      assert Harvest(cs)[..n] == Harvest(cs[..n]);
    }
  }

  /** Nonnegative cell energies give a nonnegative harvest. */
  lemma {:induction false} SumGrownNonnegative<G>(cs: seq<Cell<G>>)
    requires forall k :: 0 <= k < |cs| ==> cs[k].energy >= 0
    ensures SumGrown(cs) >= 0
    decreases |cs|
  {
    if cs != [] {
      SumGrownNonnegative(cs[..|cs| - 1]);
    }
  }

  // ---------------------------------------------------------------------------
  // Occupancy

  /** Some cell of `cs` sits at column `x`, row `y`. */
  predicate OccupiedIn<G>(cs: seq<Cell<G>>, x: int, y: int)
  {
    exists k :: 0 <= k < |cs| && cs[k].x == x && cs[k].y == y
  }

  /** No two cells of `cs` share a square. */
  predicate Spread<G>(cs: seq<Cell<G>>)
  {
    forall j, k :: 0 <= j < k < |cs| ==> cs[j].x != cs[k].x || cs[j].y != cs[k].y
  }

  /** Positions are all that occupancy sees. */
  lemma OccupiedPlaces<G>(a: seq<Cell<G>>, b: seq<Cell<G>>, x: int, y: int)
    requires SamePlaces(a, b)
    ensures OccupiedIn(a, x, y) <==> OccupiedIn(b, x, y)
  {
    if OccupiedIn(a, x, y) {
      var k :| 0 <= k < |a| && a[k].x == x && a[k].y == y;
      assert b[k].x == x && b[k].y == y;
    }
    if OccupiedIn(b, x, y) {
      var k :| 0 <= k < |b| && b[k].x == x && b[k].y == y;
      assert a[k].x == x && a[k].y == y;
    }
  }

  /** Occupancy of two pieces is occupancy of either. */
  lemma OccupiedAppend<G>(a: seq<Cell<G>>, b: seq<Cell<G>>, x: int, y: int)
    ensures OccupiedIn(a + b, x, y) <==> OccupiedIn(a, x, y) || OccupiedIn(b, x, y)
  {
    if OccupiedIn(a + b, x, y) {
      var k :| 0 <= k < |a + b| && (a + b)[k].x == x && (a + b)[k].y == y;
      if k >= |a| {
        assert b[k - |a|] == (a + b)[k];
      }
    }
    if OccupiedIn(b, x, y) {
      var k :| 0 <= k < |b| && b[k].x == x && b[k].y == y;
      assert (a + b)[|a| + k] == b[k];
    }
    if OccupiedIn(a, x, y) {
      var k :| 0 <= k < |a| && a[k].x == x && a[k].y == y;
      assert (a + b)[k] == a[k];
    }
  }

  /** A square of the lattice. */
  datatype Pos = Pos(x: int, y: int)

  function PlaceOf<G>(c: Cell<G>): Pos
  {
    Pos(c.x, c.y)
  }

  /** Two lists of cells each on its own squares, the second off the first's squares,
      make one list on pairwise different squares. */
  lemma SpreadAppend<G>(a: seq<Cell<G>>, b: seq<Cell<G>>)
    requires Spread(a) && Spread(b)
    requires forall k :: 0 <= k < |b| ==> !OccupiedIn(a, b[k].x, b[k].y)
    ensures Spread(a + b)
  {
    var ab := a + b;
    forall j, k | 0 <= j < k < |ab|
      ensures ab[j].x != ab[k].x || ab[j].y != ab[k].y
    {
      if k >= |a| {
        assert ab[k] == b[k - |a|];
        if j < |a| {
          assert ab[j] == a[j];
        } else {
          assert ab[j] == b[j - |a|];
        }
      }
    }
  }

  /** Changing one cell in place, without moving it, keeps every square. */
  lemma MovedNone<G>(cs: seq<Cell<G>>, i: nat, c': Cell<G>)
    requires i < |cs| && c'.x == cs[i].x && c'.y == cs[i].y
    ensures SamePlaces(cs[i := c'], cs)
  {
  }
}
