/** main.py's world as objects: a `Tree` owns its cell list and energy account and
    steps through its life (growing while Alive, falling and seeding while Dying); the
    `Simulation` holds the list of trees every tree looks at, and the `generation`
    counter. Cells are values stored in a tree's list (no cell object is ever shared
    between lists, so removing a cell is removing the entry at the loop's index). Every
    random draw is an explicit input. */
module Plant {
  import opened Cells
  import opened Genome
  import opened PlantRules

  /** `Tree.state`: 1 (Alive) or 0 (Dying). Removal takes a tree out of the world. */
  datatype Life = Alive | Dying

  /** The energy `Tree.__init__` starts from. */
  const InitialEnergy := 300
  /** The number of steps a single-cell tree may live. */
  const SeedlingAge := 5

  // ---------------------------------------------------------------------------
  // Draws

  /** The draws of one `Tree.__init__`: what `generate_gen` draws for each of the 16
      genes, the three `randint(0, 255)` of `generate_color`, `randint(88, 92)` for the
      die age and `randint(5, cols - 1)` for the column of `birth`. */
  datatype BirthDraw = BirthDraw(rolls: seq<seq<int>>, rerolls: seq<seq<int>>, colour: seq<int>,
                                 dieAge: int, column: int)

  predicate ValidBirthDraw(b: BirthDraw)
  {
    |b.rolls| == GeneCount && |b.rerolls| == GeneCount &&
    (forall i :: 0 <= i < GeneCount ==> ValidRolls(b.rolls[i], b.rerolls[i])) &&
    |b.colour| == 3 && (forall j :: 0 <= j < 3 ==> 0 <= b.colour[j] <= 255) &&
    88 <= b.dieAge <= 92 && 5 <= b.column < Cols
  }

  /** The draws one seeding cell of `check_death` uses: `mutate`, `mutate_die_age` and
      the child's own construction. */
  datatype ReproDraw = ReproDraw(mutation: MutationDraw, jitter: JitterDraw, birth: BirthDraw)

  predicate ValidReproDraw(d: ReproDraw)
  {
    ValidMutationDraw(d.mutation) && ValidJitterDraw(d.jitter) && ValidBirthDraw(d.birth)
  }

  /** How many of the `n` draws from `k` on fire a mutation. */
  function Fires(draws: nat -> ReproDraw, k: nat, n: nat): (r: nat)
    ensures r <= n
  {
    if n == 0 then 0 else Fires(draws, k, n - 1) + (if draws(k + n - 1).mutation.fires then 1 else 0)
  }

  /** One draw more adds its own firing. */
  lemma FiresNext(draws: nat -> ReproDraw, k: nat, n: nat)
    ensures Fires(draws, k, n + 1) == Fires(draws, k, n) + (if draws(k + n).mutation.fires then 1 else 0)
  {
  }

  // ---------------------------------------------------------------------------
  // Birth

  /** Where `birth` puts the first cell: `if x and y` lets only two nonzero coordinates
      through, so column 0 (or row 0, or a missing position) means a drawn column on
      the ground row. */
  function BirthPlace(x: int, y: int, b: BirthDraw): (p: Pos)
    ensures x != 0 && y != 0 ==> p == Pos(x, y)
    ensures x == 0 || y == 0 ==> p.y == Rows - 1 && p.x == b.column
  {
    if x != 0 && y != 0 then Pos(x, y) else Pos(b.column, Rows - 1)
  }

  /** The colour entry `__init__` appends: the given one, or the drawn one when it is
      missing or empty. */
  function Paint(colour: seq<int>, b: BirthDraw): (r: seq<int>)
    ensures colour != [] ==> r == colour
    ensures colour == [] ==> r == b.colour
  {
    if colour != [] then colour else b.colour
  }

  /** The 16 genes `[generate_gen(i) for i in range(16)]` makes from the draws. */
  predicate Generated(genes: seq<Gene>, b: BirthDraw)
    requires ValidBirthDraw(b)
  {
    |genes| == GeneCount && ValidGenes(genes) &&
    (forall i :: 1 <= i < GeneCount ==> genes[i] == RollAll(b.rolls[i])) &&
    CountBlocked(genes[0]) == Min(CountBlocked(RollAll(b.rolls[0])), 2) &&
    (forall d :: 0 <= d < 4 && genes[0][d] != RollAll(b.rolls[0])[d] ==>
      RollAll(b.rolls[0])[d] == Blocked && CountBlocked(RollAll(b.rolls[0])[..d]) < 2 &&
      genes[0][d] == b.rerolls[0][CountBlocked(RollAll(b.rolls[0])[..d])])
  }

  /** `[generate_gen(i) for i in range(16)]`: a fresh genome from the draws. */
  method GenerateGenes(b: BirthDraw) returns (genes: seq<Gene>)
    requires ValidBirthDraw(b)
    ensures Generated(genes, b)
  {
    genes := [];
    for i := 0 to GeneCount
      invariant |genes| == i && forall j :: 0 <= j < i ==> ValidGene(genes[j])
      invariant forall j :: 1 <= j < i ==> genes[j] == RollAll(b.rolls[j])
      invariant i > 0 ==> CountBlocked(genes[0]) == Min(CountBlocked(RollAll(b.rolls[0])), 2)
      invariant i > 0 ==> forall d :: 0 <= d < 4 && genes[0][d] != RollAll(b.rolls[0])[d] ==>
        RollAll(b.rolls[0])[d] == Blocked && CountBlocked(RollAll(b.rolls[0])[..d]) < 2 &&
        genes[0][d] == b.rerolls[0][CountBlocked(RollAll(b.rolls[0])[..d])]
    {
      var gene := GenerateGen(i, b.rolls[i], b.rerolls[i]);
      genes := genes + [gene];
    }
  }

  /** The genome `Tree.__init__` settles on: the given genome, or 16 generated genes when
      none is given, followed by the colour entry. */
  method StartGenome(genome0: seq<Gene>, colour: seq<int>, b: BirthDraw) returns (genome: seq<Gene>)
    requires genome0 == [] || ValidGenes(genome0)
    requires ValidBirthDraw(b)
    ensures |genome| > GeneCount && ValidGenes(genome)
    ensures genome0 != [] ==> genome == genome0 + [Paint(colour, b)]
    ensures genome0 == [] ==>
      |genome| == GeneCount + 1 && Generated(genome[..GeneCount], b) && genome[GeneCount] == Paint(colour, b)
  {
    var genes := genome0;
    if genome0 == [] {
      genes := GenerateGenes(b);
      assert genes[..GeneCount] == genes;
    }
    assert (genes + [Paint(colour, b)])[..|genes|] == genes;
    genome := genes + [Paint(colour, b)];
  }

  /** A tree as `Tree.__init__` leaves it. The source's missing or falsy arguments
      (None, 0, an empty list) are passed as 0 or []: a missing genome is generated, a
      missing colour drawn, a missing die age drawn; the first cell is born, and
      `update_energy` has charged the upkeep of that one cell. */
  predicate Born(t: Tree, x: int, y: int, genome0: seq<Gene>, colour: seq<int>, dieAge0: int, b: BirthDraw)
    requires ValidBirthDraw(b)
    reads t
  {
    var p := BirthPlace(x, y, b);
    (genome0 != [] ==> t.genome == genome0 + [Paint(colour, b)]) &&
    (genome0 == [] ==> |t.genome| == GeneCount + 1 && Generated(t.genome[..GeneCount], b) &&
                       t.genome[GeneCount] == Paint(colour, b)) &&
    |t.genome| > GeneCount &&
    t.cells == [Sprout(p.x, p.y, t.genome[0])] &&
    t.energy == InitialEnergy - Upkeep && t.gettingEnergy == 0 && t.wasteEnergy == Upkeep &&
    t.age == 0 && t.dieAge == (if dieAge0 != 0 then dieAge0 else b.dieAge) && t.state == Alive
  }

  // ---------------------------------------------------------------------------
  // The world seen from one tree

  /** Every cell of every tree, in world order. */
  function World(ts: seq<Tree>): seq<PCell>
    reads ts
  {
    if ts == [] then [] else World(ts[..|ts| - 1]) + ts[|ts| - 1].cells
  }

  /** The cells of every tree but `t`, in world order. */
  function Others(ts: seq<Tree>, t: Tree): seq<PCell>
    reads set u | u in ts && u != t
  {
    if ts == [] then []
    else
      var last := ts[|ts| - 1];
      Others(ts[..|ts| - 1], t) + (if last == t then [] else last.cells)
  }

  predicate Distinct(ts: seq<Tree>)
  {
    forall i, j :: 0 <= i < j < |ts| ==> ts[i] != ts[j]
  }

  /** The world seen from a member `t`: the other trees' cells and `t`'s own. */
  lemma {:induction false} WorldSplit(ts: seq<Tree>, t: Tree, x: int, y: int)
    requires Distinct(ts) && t in ts
    ensures OccupiedIn(World(ts), x, y) <==> Taken(Pos(x, y), Others(ts, t), t.cells)
    ensures CountAbove(World(ts), x, y) == Upper(Others(ts, t), t.cells, x, y)
    decreases |ts|, 1
  {
    if ts[|ts| - 1] == t {
      WorldSplitLast(ts, t, x, y);
    } else {
      WorldSplitFront(ts, t, x, y);
    }
  }

  /** WorldSplit when `t` is the last tree: the world is the others, then `t`'s cells. */
  lemma {:induction false} WorldSplitLast(ts: seq<Tree>, t: Tree, x: int, y: int)
    requires Distinct(ts) && ts != [] && ts[|ts| - 1] == t
    ensures OccupiedIn(World(ts), x, y) <==> Taken(Pos(x, y), Others(ts, t), t.cells)
    ensures CountAbove(World(ts), x, y) == Upper(Others(ts, t), t.cells, x, y)
    decreases |ts|, 0
  {
    var front := ts[..|ts| - 1];
    assert World(ts) == World(front) + t.cells;
    assert Others(ts, t) == Others(front, t);
    assert t !in front;
    NotInWorld(front, t, x, y);
    OccupiedAppend(World(front), t.cells, x, y);
    CountAboveAppend(World(front), t.cells, x, y);
  }

  /** WorldSplit when `t` is an earlier tree: the last tree's cells join the others. */
  lemma {:induction false} WorldSplitFront(ts: seq<Tree>, t: Tree, x: int, y: int)
    requires Distinct(ts) && t in ts && ts[|ts| - 1] != t
    ensures OccupiedIn(World(ts), x, y) <==> Taken(Pos(x, y), Others(ts, t), t.cells)
    ensures CountAbove(World(ts), x, y) == Upper(Others(ts, t), t.cells, x, y)
    decreases |ts|, 0
  {
    var front := ts[..|ts| - 1];
    var last := ts[|ts| - 1];
    assert World(ts) == World(front) + last.cells;
    assert Others(ts, t) == Others(front, t) + last.cells;
    assert t in front;
    WorldSplit(front, t, x, y);
    OccupiedAppend(World(front), last.cells, x, y);
    CountAboveAppend(World(front), last.cells, x, y);
    OccupiedAppend(Others(front, t), last.cells, x, y);
    CountAboveAppend(Others(front, t), last.cells, x, y);
  }

  /** The shading count a member `t` sees depends on its cells' places only. */
  lemma UpperOfMember(ts: seq<Tree>, t: Tree, cs: seq<PCell>, x: int, y: int)
    requires Distinct(ts) && t in ts && SamePlaces(t.cells, cs)
    ensures CountAbove(World(ts), x, y) == Upper(Others(ts, t), cs, x, y)
  {
    WorldSplit(ts, t, x, y);
    CountAbovePlaces(t.cells, cs, x, y);
  }

  /** Without `t` in the list, the world is the others. */
  lemma {:induction false} NotInWorld(ts: seq<Tree>, t: Tree, x: int, y: int)
    requires t !in ts
    ensures World(ts) == Others(ts, t)
    decreases |ts|
  {
    if ts != [] {
      NotInWorld(ts[..|ts| - 1], t, x, y);
    }
  }

  /** `list.index(t)`: the first entry that is `t`. */
  function IndexOf(ts: seq<Tree>, t: Tree): (i: nat)
    requires t in ts
    ensures i < |ts| && ts[i] == t && forall j :: 0 <= j < i ==> ts[j] != t
  {
    if ts[0] == t then 0 else 1 + IndexOf(ts[1..], t)
  }

  /** `list.remove(t)`: the first entry that is `t` goes. */
  function RemoveFirst(ts: seq<Tree>, t: Tree): (r: seq<Tree>)
    requires t in ts
    ensures |r| == |ts| - 1
  {
    var i := IndexOf(ts, t);
    ts[..i] + ts[i + 1..]
  }

  /** With every tree once in the list, removing `t` removes the entry at its index. */
  lemma RemoveFirstMembers(ts: seq<Tree>, t: Tree)
    requires Distinct(ts) && t in ts
    ensures Distinct(RemoveFirst(ts, t))
    ensures forall u :: u in RemoveFirst(ts, t) ==> u in ts && u != t
  {
    var i := IndexOf(ts, t);
    var r := RemoveFirst(ts, t);
    assert forall j :: 0 <= j < |r| ==> r[j] == (if j < i then ts[j] else ts[j + 1]);
  }

  lemma RemoveAt(ts: seq<Tree>, t: Tree, i: nat)
    requires Distinct(ts) && i < |ts| && ts[i] == t
    ensures RemoveFirst(ts, t) == ts[..i] + ts[i + 1..]
  {
  }

  // ---------------------------------------------------------------------------
  // What a step does, as functions of values

  /** The cells after the Alive part of a step before any death: grown, lit and harvested. */
  function Lived(genome: seq<Gene>, others: seq<PCell>, cs: seq<PCell>): (r: seq<PCell>)
    requires ValidGenes(genome) && GenesValid(cs)
  {
    Harvest(Illuminate(others, GrowFrom(genome, others, cs, 0)))
  }

  /** The energy a tree holding `e` has after that part: the harvest of the lit cells
      less the upkeep of all of them. */
  function LivedEnergy(genome: seq<Gene>, others: seq<PCell>, cs: seq<PCell>, e: int): int
    requires ValidGenes(genome) && GenesValid(cs)
  {
    var lit := Illuminate(others, GrowFrom(genome, others, cs, 0));
    e + SumGrown(lit) - |lit| * Upkeep
  }

  /** The settlement is exact: the tree gains what leaves the cells, less the upkeep, so
      tree energy plus cell energy drops by exactly the upkeep. */
  lemma LivedLedger(genome: seq<Gene>, others: seq<PCell>, cs: seq<PCell>, e: int)
    requires ValidGenes(genome) && GenesValid(cs)
    ensures var lit := Illuminate(others, GrowFrom(genome, others, cs, 0));
      LivedEnergy(genome, others, cs, e) + TotalEnergy(Lived(genome, others, cs)) ==
        e + TotalEnergy(lit) - |lit| * Upkeep &&
      SumGrown(Lived(genome, others, cs)) == 0
  {
    HarvestLedger(Illuminate(others, GrowFrom(genome, others, cs, 0)));
  }

  /** The genome a seeding cell's child gets: `mutate` of a copy of the first 16 genes. */
  function ChildGenome(genome: seq<Gene>, d: ReproDraw): (r: seq<Gene>)
    requires ValidGenes(genome) && ValidReproDraw(d)
    ensures ValidGenes(r) && |r| == GeneCount
  {
    Mutate(genome[..GeneCount], d.mutation).0
  }

  /** The colour passed to the child: none after a mutation (the child draws one), the
      parent's `genome[16]` otherwise. */
  function ChildColour(genome: seq<Gene>, d: ReproDraw): (r: seq<int>)
    requires |genome| > GeneCount
    ensures !d.mutation.fires ==> r == genome[GeneCount]
    ensures d.mutation.fires ==> r == []
  {
    if d.mutation.fires then [] else genome[GeneCount]
  }

  /** `t` is the child a seeding cell `seed` of a tree with `genome` and `dieAge` makes
      from draw `d`. */
  predicate ChildOf(t: Tree, genome: seq<Gene>, dieAge: int, seed: PCell, d: ReproDraw)
    requires ValidGenes(genome) && |genome| > GeneCount && ValidReproDraw(d)
    reads t
  {
    Born(t, seed.x, seed.y, ChildGenome(genome, d), ChildColour(genome, d), MutateDieAge(dieAge, d.jitter), d.birth)
  }

  /** `kids` are, in order, the children the seeding cells `seeds` make from the draws
      `k`, `k + 1`, ... */
  predicate Brood(kids: seq<Tree>, genome: seq<Gene>, dieAge: int, seeds: seq<PCell>, draws: nat -> ReproDraw, k: nat)
    requires ValidGenes(genome) && |genome| > GeneCount && forall n :: ValidReproDraw(draws(n))
    reads kids
  {
    |kids| == |seeds| &&
    forall j :: 0 <= j < |kids| ==> kids[j].Valid() && ChildOf(kids[j], genome, dieAge, seeds[j], draws(k + j))
  }

  /** One more child, made from the next draw, extends a brood by one seed. */
  lemma BroodSnoc(kids: seq<Tree>, genome: seq<Gene>, dieAge: int, seeds: seq<PCell>,
                  draws: nat -> ReproDraw, k: nat, child: Tree, seed: PCell)
    requires ValidGenes(genome) && |genome| > GeneCount && forall n :: ValidReproDraw(draws(n))
    requires Brood(kids, genome, dieAge, seeds, draws, k)
    requires child.Valid() && ChildOf(child, genome, dieAge, seed, draws(k + |kids|))
    ensures Brood(kids + [child], genome, dieAge, seeds + [seed], draws, k)
  {
    var kids', seeds' := kids + [child], seeds + [seed];
    forall j | 0 <= j < |kids'|
      ensures kids'[j].Valid() && ChildOf(kids'[j], genome, dieAge, seeds'[j], draws(k + j))
    {
      if j < |kids| {
        assert kids'[j] == kids[j] && seeds'[j] == seeds[j];
      }
    }
  }

  /** A seeded child's die age is within one of its parent's, unless the jittered age
      is 0, which the constructor treats as missing and replaces by the drawn age. */
  lemma ChildDieAgeNear(child: Tree, genome: seq<Gene>, dieAge: int, seed: PCell, d: ReproDraw)
    requires ValidGenes(genome) && |genome| > GeneCount && ValidReproDraw(d)
    requires ChildOf(child, genome, dieAge, seed, d)
    ensures MutateDieAge(dieAge, d.jitter) != 0 ==> child.dieAge - dieAge in {-1, 0, 1}
    ensures MutateDieAge(dieAge, d.jitter) != 0 ==> (child.dieAge != dieAge <==> d.jitter.fires)
    ensures MutateDieAge(dieAge, d.jitter) == 0 ==> child.dieAge == d.birth.dieAge && 88 <= child.dieAge <= 92
  {
  }

  // ---------------------------------------------------------------------------

  class Tree {
    var cells: seq<PCell>
    var energy: int
    var gettingEnergy: int
    var wasteEnergy: int
    var genome: seq<Gene>
    var age: int
    var dieAge: int
    var state: Life

    /** The first 16 genome entries are gene records, a colour follows, and every cell
        carries a gene record. */
    predicate Valid()
      reads this
    {
      |genome| > GeneCount && ValidGenes(genome) && GenesValid(cells)
    }

    /** `Tree.__init__`: a genome when none is given, the colour entry, the die age, the
        first cell, and a first settlement. */
    constructor(x: int, y: int, genome0: seq<Gene>, colour: seq<int>, dieAge0: int, b: BirthDraw)
      requires genome0 == [] || ValidGenes(genome0)
      requires ValidBirthDraw(b)
      ensures Valid() && Born(this, x, y, genome0, colour, dieAge0, b)
    {
      cells := [];
      energy := InitialEnergy;
      gettingEnergy := 0;
      wasteEnergy := 0;
      var genes := StartGenome(genome0, colour, b);
      genome := genes;
      age := 0;
      dieAge := if dieAge0 != 0 then dieAge0 else b.dieAge;
      state := Alive;
      new;
      Birth(x, y, b);
      ghost var first := cells;
      assert first == [first[0]];
      SproutSettled(first[0]);
      UpdateEnergy();
    }

    /** `birth`: the first cell, carrying gene record 0. */
    method Birth(x: int, y: int, b: BirthDraw)
      requires |genome| > 0
      modifies this`cells
      ensures var p := BirthPlace(x, y, b); cells == old(cells) + [Sprout(p.x, p.y, genome[0])]
    {
      if x != 0 && y != 0 {
        cells := cells + [Sprout(x, y, genome[0])];
      } else {
        cells := cells + [Sprout(b.column, Rows - 1, genome[0])];
      }
    }

    /** `grow`: one pass over the cell list, which the pass appends to as it goes, so the
        new children get their turn in the same pass. Each direction is judged against
        the world as it is at that moment. */
    method Grow(sim: Simulation)
      requires Valid() && Distinct(sim.trees) && this in sim.trees
      modifies this`cells
      ensures Valid()
      ensures cells == GrowFrom(genome, Others(sim.trees, this), old(cells), 0)
    {
      ghost var others := Others(sim.trees, this);
      ghost var start := cells;
      var i := 0;
      while i < |cells|
        invariant i <= |cells| && Valid() && Others(sim.trees, this) == others
        invariant GrowFrom(genome, others, cells, i) == GrowFrom(genome, others, start, 0)
        decreases |cells| - i + 4 * RichCount(cells[i..])
      {
        ghost var before := cells;
        GrowTurn(sim, i);
        GrowCellShape(genome, others, before, i);
        GrowCellMeasure(genome, others, before, i);
        i := i + 1;
      }
    }

    /** The turn of the cell at index `i` in `grow`: the four directions in order, then
        the payment (once, however many children) and the settling of the cell. */
    method GrowTurn(sim: Simulation, i: nat)
      requires Valid() && Distinct(sim.trees) && this in sim.trees && i < |cells|
      modifies this`cells
      ensures Valid()
      ensures cells == GrowCell(genome, Others(sim.trees, this), old(cells), i)
    {
      ghost var others := Others(sim.trees, this);
      ghost var before := cells;
      var cell := cells[i];
      if cell.state == Growing {
        var canGrow, isGrowed := TryDirections(sim, cell);
        assert Others(sim.trees, this) == others;
        ghost var a := TryFrom(genome, others, cell, Attempt(before, false, false), 0);
        assert a.cells == cells && a.canGrow == canGrow && a.grew == isGrowed;
        var settled := cell;
        if isGrowed {
          settled := settled.(energy := settled.energy - GrowthEnergy, state := Grown);
        }
        if !canGrow {
          settled := settled.(state := Grown);
        }
        cells := cells[i := settled];
        assert cells == GrowCell(genome, others, before, i);
      }
    }

    /** `grow`'s inner loop over the four directions for the Growing cell `cell`. */
    method TryDirections(sim: Simulation, cell: PCell) returns (canGrow: bool, isGrowed: bool)
      requires Valid() && Distinct(sim.trees) && this in sim.trees && ValidGene(cell.gene)
      modifies this`cells
      ensures Valid() && |cells| >= old(|cells|) && forall j :: 0 <= j < old(|cells|) ==> cells[j] == old(cells[j])
      ensures Attempt(cells, canGrow, isGrowed) ==
        TryFrom(genome, Others(sim.trees, this), cell, Attempt(old(cells), false, false), 0)
    {
      ghost var others := Others(sim.trees, this);
      ghost var before := cells;
      canGrow, isGrowed := false, false;
      for d := 0 to 4
        invariant Valid() && Others(sim.trees, this) == others
        invariant |cells| >= |before| && forall j :: 0 <= j < |before| ==> cells[j] == before[j]
        invariant TryFrom(genome, others, cell, Attempt(cells, canGrow, isGrowed), d) ==
          TryFrom(genome, others, cell, Attempt(before, false, false), 0)
      {
        ghost var a := Attempt(cells, canGrow, isGrowed);
        canGrow, isGrowed := TryDirection(sim, cell, d, canGrow, isGrowed);
        TryStepExtends(genome, others, cell, a, d);
      }
    }

    /** One direction `d` of `grow`'s inner loop for the Growing cell `cell`: the
        direction's own bounds test, then the occupancy test against the world and the
        energy test. */
    method TryDirection(sim: Simulation, cell: PCell, d: nat, canGrow: bool, isGrowed: bool)
      returns (canGrow': bool, isGrowed': bool)
      requires Valid() && Distinct(sim.trees) && this in sim.trees && d < 4 && ValidGene(cell.gene)
      modifies this`cells
      ensures Valid()
      ensures Attempt(cells, canGrow', isGrowed') ==
        TryStep(genome, Others(sim.trees, this), cell, Attempt(old(cells), canGrow, isGrowed), d)
    {
      canGrow', isGrowed' := canGrow, isGrowed;
      var gen := cell.gene;
      if gen[d] == Blocked {
        return;
      }
      match Target(cell, d)
      case None =>
      case Some(p) =>
        var open, grew := GrowInto(sim, cell, p.x, p.y, genome[gen[d]]);
        canGrow' := canGrow || open;
        isGrowed' := isGrowed || grew;
    }

    /** The body every direction of `grow` shares: a square no cell of the world holds is
        growable, and with enough energy the cell's child is appended there. */
    method GrowInto(sim: Simulation, cell: PCell, x: int, y: int, gene: Gene) returns (open: bool, grew: bool)
      requires Valid() && Distinct(sim.trees) && this in sim.trees && ValidGene(gene)
      modifies this`cells
      ensures Valid()
      ensures open == !Taken(Pos(x, y), Others(sim.trees, this), old(cells))
      ensures grew == (open && cell.energy >= GrowthEnergy)
      ensures cells == old(cells) + (if grew then [Sprout(x, y, gene)] else [])
    {
      WorldSplit(sim.trees, this, x, y);
      open := !sim.Occupied(x, y);
      grew := false;
      if open && cell.energy >= GrowthEnergy {
        cells := cells + [Sprout(x, y, gene)];
        grew := true;
      }
    }

    /** `update_cells`: every cell counts the cells of the world above it, looks up its
        light level and banks its gain; positions do not change during the pass. */
    method UpdateCells(sim: Simulation)
      requires Valid() && Distinct(sim.trees) && this in sim.trees
      modifies this`cells
      ensures Valid()
      ensures cells == Illuminate(Others(sim.trees, this), old(cells))
    {
      ghost var others := Others(sim.trees, this);
      ghost var start := cells;
      ghost var lit := Illuminate(others, start);
      var k := 0;
      while k < |cells|
        invariant k <= |cells| == |start| && Others(sim.trees, this) == others
        invariant forall j :: 0 <= j < k ==> cells[j] == lit[j]
        invariant forall j :: k <= j < |cells| ==> cells[j] == start[j]
      {
        LightCell(sim, k, others, start);
        k := k + 1;
      }
      assert cells == lit;
    }

    /** The turn of the cell at index `k` in `update_cells`, while the cells sit where
        they sat at the start of the pass. */
    method LightCell(sim: Simulation, k: nat, ghost others: seq<PCell>, ghost start: seq<PCell>)
      requires Valid() && Distinct(sim.trees) && this in sim.trees && Others(sim.trees, this) == others
      requires k < |cells| && SamePlaces(cells, start) && cells[k] == start[k]
      modifies this`cells
      ensures Valid() && cells == old(cells)[k := Illuminate(others, start)[k]]
    {
      var c := cells[k];
      var upper := sim.CountUpper(c.x, c.y);
      UpperOfMember(sim.trees, this, start, c.x, c.y);
      var level := Level(Rows, sim.sunLevel, c.y);
      cells := cells[k := Accrue(c, level, upper)];
    }

    /** `update_energy`: the Grown cells' energy is harvested into the tree, and every
        cell costs the upkeep. */
    method UpdateEnergy()
      modifies this`cells, this`gettingEnergy, this`wasteEnergy, this`energy
      ensures gettingEnergy == SumGrown(old(cells))
      ensures cells == Harvest(old(cells))
      ensures wasteEnergy == |cells| * Upkeep
      ensures energy == old(energy) + gettingEnergy - wasteEnergy
    {
      gettingEnergy := SumGrown(cells);
      DellCellsEnergy();
      wasteEnergy := |cells| * Upkeep;
      energy := energy + gettingEnergy - wasteEnergy;
    }

    /** `dell_cells_energy`: every Grown cell's energy goes to 0. */
    method DellCellsEnergy()
      modifies this`cells
      ensures cells == Harvest(old(cells))
    {
      ghost var start := cells;
      var k := 0;
      while k < |cells|
        invariant k <= |cells| == |start|
        invariant forall j :: 0 <= j < k ==> cells[j] == Harvested(start[j])
        invariant forall j :: k <= j < |cells| ==> cells[j] == start[j]
      {
        if cells[k].state == Grown {
          cells := cells[k := cells[k].(energy := 0)];
        }
        k := k + 1;
      }
    }

    /** `check_first_death`: a tree out of energy or at its die age starts dying. */
    method CheckFirstDeath()
      modifies this`cells, this`state
      ensures old(energy <= 0 || age >= dieAge) ==> cells == KeepGrowing(old(cells)) && state == Dying
      ensures !old(energy <= 0 || age >= dieAge) ==> cells == old(cells) && state == old(state)
    {
      if energy <= 0 || age >= dieAge {
        FirstDie();
      }
    }

    /** `first_die`: the Grown cells drop off and the tree is Dying. */
    method FirstDie()
      modifies this`cells, this`state
      ensures cells == KeepGrowing(old(cells)) && state == Dying
    {
      cells := KeepGrowing(cells);
      state := Dying;
    }

    /** `clear`: the tree empties and leaves the world. */
    method Clear(sim: Simulation)
      requires Valid() && sim.Valid() && this in sim.trees
      modifies this`cells, this`energy, this`age, sim`trees
      ensures Valid() && sim.Valid()
      ensures cells == [] && energy == 0 && age == 0
      ensures sim.trees == RemoveFirst(old(sim.trees), this)
    {
      RemoveFirstMembers(sim.trees, this);
      cells := [];
      energy := 0;
      age := 0;
      sim.trees := RemoveFirst(sim.trees, this);
    }

    /** `check_for_downtime`: a single-cell tree of age 5 or more is removed. */
    method CheckForDowntime(sim: Simulation)
      requires Valid() && sim.Valid() && this in sim.trees
      modifies this`cells, this`energy, this`age, sim`trees
      ensures Valid() && sim.Valid()
      ensures old(|cells| == 1 && age >= SeedlingAge) ==>
        cells == [] && energy == 0 && age == 0 && sim.trees == RemoveFirst(old(sim.trees), this)
      ensures !old(|cells| == 1 && age >= SeedlingAge) ==>
        cells == old(cells) && energy == old(energy) && age == old(age) && sim.trees == old(sim.trees)
    {
      if |cells| == 1 && age >= SeedlingAge {
        Clear(sim);
      }
    }

    /** `fall_cells`: each visited cell drops a row onto a free square, stays on the
        ground row, or is removed; after a removal the loop index still moves on. */
    method FallCells(sim: Simulation)
      requires Valid() && Distinct(sim.trees) && this in sim.trees
      modifies this`cells
      ensures Valid()
      ensures cells == FallFrom(Others(sim.trees, this), old(cells), 0)
    {
      ghost var others := Others(sim.trees, this);
      ghost var start := cells;
      var i := 0;
      while i < |cells|
        invariant Valid() && Others(sim.trees, this) == others
        invariant FallFrom(others, cells, i) == FallFrom(others, start, 0)
        decreases |cells| - i
      {
        ghost var before := cells;
        FallVisit(sim, i, others);
        FallFromVisit(others, before, i);
        i := i + 1;
      }
    }

    /** The visit of the cell at index `i` in `fall_cells`. */
    method FallVisit(sim: Simulation, i: nat, ghost others: seq<PCell>)
      requires Valid() && Distinct(sim.trees) && this in sim.trees && i < |cells|
      requires Others(sim.trees, this) == others
      modifies this`cells
      ensures Valid() && cells == Visit(others, old(cells), i)
    {
      var cell := cells[i];
      WorldSplit(sim.trees, this, cell.x, cell.y + 1);
      FallVisitGenes(cells, i);
      if cell.y < Rows - 1 && !sim.Occupied(cell.x, cell.y + 1) {
        cells := cells[i := cell.(y := cell.y + 1)];
      } else if cell.y == Rows - 1 {
      } else {
        cells := cells[..i] + cells[i + 1..];
      }
    }

    /** `check_death`: an empty dying tree is removed; otherwise every visited
        ground-row cell seeds a child tree at its place from a mutated copy of the genome
        (`generation` counting the mutations) and is removed, the loop index moving on as
        in `fall_cells`. Seed `j` uses draw `k + j`. */
    method CheckDeath(sim: Simulation, draws: nat -> ReproDraw, k: nat) returns (next: nat, ghost kids: seq<Tree>)
      requires Valid() && sim.Valid() && this in sim.trees
      requires forall n :: ValidReproDraw(draws(n))
      modifies this`cells, this`energy, this`age, sim`trees, sim`generation
      ensures sim.Valid()
      ensures old(cells) == [] ==>
        cells == [] && energy == 0 && age == 0 && kids == [] && next == k &&
        sim.trees == RemoveFirst(old(sim.trees), this) && sim.generation == old(sim.generation)
      ensures old(cells) != [] ==>
        var seeds := SeedFrom(old(cells), 0).1;
        cells == SeedFrom(old(cells), 0).0 && energy == old(energy) && age == old(age) &&
        |kids| == |seeds| && next == k + |seeds| &&
        sim.trees == old(sim.trees) + kids &&
        sim.generation == old(sim.generation) + Fires(draws, k, |seeds|) &&
        (forall j :: 0 <= j < |kids| ==> fresh(kids[j])) &&
        Brood(kids, genome, dieAge, seeds, draws, k)
    {
      if |cells| == 0 {
        Clear(sim);
        next, kids := k, [];
      } else {
        next, kids := SeedCells(sim, draws, k);
        forall t | t in sim.trees
          ensures t.Valid()
        {
          if t !in old(sim.trees) {
            var j :| 0 <= j < |kids| && kids[j] == t;
          }
        }
      }
    }

    /** The seeding loop of `check_death`. */
    method SeedCells(sim: Simulation, draws: nat -> ReproDraw, k: nat) returns (next: nat, ghost kids: seq<Tree>)
      requires Valid() && Distinct(sim.trees)
      requires forall n :: ValidReproDraw(draws(n))
      modifies this`cells, sim`trees, sim`generation
      ensures Valid() && Distinct(sim.trees)
      ensures var seeds := SeedFrom(old(cells), 0).1;
        cells == SeedFrom(old(cells), 0).0 &&
        |kids| == |seeds| && next == k + |seeds| &&
        sim.trees == old(sim.trees) + kids &&
        sim.generation == old(sim.generation) + Fires(draws, k, |seeds|) &&
        (forall j :: 0 <= j < |kids| ==> fresh(kids[j])) &&
        Brood(kids, genome, dieAge, seeds, draws, k)
    {
      next := k;
      kids := [];
      ghost var start := cells;
      ghost var seeds: seq<PCell> := [];
      var i := 0;
      while i < |cells|
        invariant Seeding(sim, draws, k, i, next, old(sim.trees), old(sim.generation), start, seeds, kids)
        invariant forall t :: t in kids ==> fresh(t)
        decreases |cells| - i
        modifies this`cells, sim`trees, sim`generation
      {
        next, seeds, kids := SeedStep(sim, draws, k, i, next, old(sim.trees), old(sim.generation), start, seeds, kids);
        i := i + 1;
      }
      assert seeds + [] == seeds;
      assert forall j :: 0 <= j < |kids| ==> kids[j] in kids;
    }

    /** Where the seeding loop of `check_death` stands before looking at index `i`: the
        seeds met so far followed by what the pass still gathers are all the seeds,
        the cells still to come are the pass's, and every seed so far has its child,
        appended to the world, made from its own draw. */
    ghost predicate Seeding(sim: Simulation, draws: nat -> ReproDraw, k: nat, i: nat, next: nat, ts0: seq<Tree>,
                            g0: int, start: seq<PCell>, seeds: seq<PCell>, kids: seq<Tree>)
      requires forall n :: ValidReproDraw(draws(n))
      reads this, sim, kids
    {
      Valid() && Distinct(sim.trees) && sim.trees == ts0 + kids &&
      SeedProgress(cells, i, start, seeds) &&
      next == k + |seeds| && |kids| == |seeds| && sim.generation == g0 + Fires(draws, k, |seeds|) &&
      this !in kids && Brood(kids, genome, dieAge, seeds, draws, k)
    }

    /** One pass of the seeding loop: a cell on the ground row seeds and leaves the list. */
    method SeedStep(sim: Simulation, draws: nat -> ReproDraw, k: nat, i: nat, next: nat, ghost ts0: seq<Tree>,
                    ghost g0: int, ghost start: seq<PCell>, ghost seeds: seq<PCell>, ghost kids: seq<Tree>)
      returns (next': nat, ghost seeds': seq<PCell>, ghost kids': seq<Tree>)
      requires forall n :: ValidReproDraw(draws(n))
      requires i < |cells| && Seeding(sim, draws, k, i, next, ts0, g0, start, seeds, kids)
      modifies this`cells, sim`trees, sim`generation
      ensures Seeding(sim, draws, k, i + 1, next', ts0, g0, start, seeds', kids')
      ensures |cells| <= old(|cells|) && forall t :: t in kids' ==> t in kids || fresh(t)
    {
      if cells[i].y == Rows - 1 {
        var child := SeedGround(sim, draws, k, i, next, ts0, g0, start, seeds, kids);
        next', seeds', kids' := next + 1, seeds + [old(cells[i])], kids + [child];
      } else {
        SeedProgressStep(cells, i, start, seeds);
        next', seeds', kids' := next, seeds, kids;
      }
    }

    /** A cell on the ground row at `i` seeds: its child is the next of the brood. */
    method SeedGround(sim: Simulation, draws: nat -> ReproDraw, k: nat, i: nat, next: nat, ghost ts0: seq<Tree>,
                      ghost g0: int, ghost start: seq<PCell>, ghost seeds: seq<PCell>, ghost kids: seq<Tree>)
      returns (child: Tree)
      requires forall n :: ValidReproDraw(draws(n))
      requires i < |cells| && cells[i].y == Rows - 1 && Seeding(sim, draws, k, i, next, ts0, g0, start, seeds, kids)
      modifies this`cells, sim`trees, sim`generation
      ensures Seeding(sim, draws, k, i + 1, next + 1, ts0, g0, start, seeds + [old(cells[i])], kids + [child])
      ensures |cells| < old(|cells|) && fresh(child)
    {
      ghost var before := cells;
      SeedProgressStep(before, i, start, seeds);
      child := SeedAt(sim, i, draws(next), draws, k, kids, seeds);
      FiresNext(draws, k, |seeds|);
      assert sim.trees == ts0 + (kids + [child]);
    }

    /** A seeding cell at index `i` seeds and is removed. The source makes the child
        first; the removal touches only this tree's cells and the child only the world's
        list, so doing the removal first changes nothing. */
    method SeedAt(sim: Simulation, i: nat, d: ReproDraw, ghost draws: nat -> ReproDraw, ghost k: nat,
                  ghost kids: seq<Tree>, ghost seeds: seq<PCell>) returns (child: Tree)
      requires Valid() && Distinct(sim.trees) && i < |cells|
      requires forall n :: ValidReproDraw(draws(n))
      requires d == draws(k + |kids|) && this !in kids && Brood(kids, genome, dieAge, seeds, draws, k)
      modifies this`cells, sim`trees, sim`generation
      ensures Valid() && Distinct(sim.trees) && cells == old(cells[..i] + cells[i + 1..])
      ensures fresh(child) && sim.trees == old(sim.trees) + [child]
      ensures sim.generation == old(sim.generation) + (if d.mutation.fires then 1 else 0)
      ensures Brood(kids + [child], genome, dieAge, seeds + [old(cells[i])], draws, k)
    {
      var cell := cells[i];
      ghost var was := cells;
      cells := cells[..i] + cells[i + 1..];
      assert forall j :: 0 <= j < |cells| ==> cells[j] == if j < i then was[j] else was[j + 1];
      child := Seed(sim, cell, d);
      BroodSnoc(kids, genome, dieAge, seeds, draws, k, child, cell);
    }

    /** One ground-row cell of `check_death`: a child tree from a mutated copy of the
        genome (a new colour drawn after a mutation, `genome[16]` kept otherwise) and the
        jittered die age, born at the cell's place and appended to the world. */
    method Seed(sim: Simulation, cell: PCell, d: ReproDraw) returns (child: Tree)
      requires Valid() && Distinct(sim.trees) && ValidReproDraw(d)
      modifies sim`trees, sim`generation
      ensures fresh(child) && child.Valid() && sim.trees == old(sim.trees) + [child] && Distinct(sim.trees)
      ensures sim.generation == old(sim.generation) + (if d.mutation.fires then 1 else 0)
      ensures ChildOf(child, genome, dieAge, cell, d)
    {
      var genomeCopy := genome[..GeneCount];
      var mutated := Mutate(genomeCopy, d.mutation);
      var childAge := MutateDieAge(dieAge, d.jitter);
      if mutated.1 == 1 {
        sim.generation := sim.generation + 1;
        child := new Tree(cell.x, cell.y, mutated.0, [], childAge, d.birth);
      } else {
        child := new Tree(cell.x, cell.y, mutated.0, genome[GeneCount], childAge, d.birth);
      }
      sim.trees := sim.trees + [child];
    }

    /** `step`: an Alive tree ages, grows, takes in light, settles, may start dying and
        may be culled as a seedling; a Dying tree falls and seeds. */
    method Step(sim: Simulation, draws: nat -> ReproDraw, k: nat) returns (next: nat, ghost kids: seq<Tree>)
      requires Valid() && sim.Valid() && this in sim.trees
      requires forall n :: ValidReproDraw(draws(n))
      modifies this, sim
      ensures Valid() && sim.Valid() && genome == old(genome) && dieAge == old(dieAge)
      ensures old(state) == Dying ==> state == Dying
      ensures old(state) == Alive ==>
        var others := old(Others(sim.trees, this));
        var lived := Lived(genome, others, old(cells));
        var e := LivedEnergy(genome, others, old(cells), old(energy));
        var dying := e <= 0 || old(age) + 1 >= dieAge;
        var left := if dying then KeepGrowing(lived) else lived;
        var culled := |left| == 1 && old(age) + 1 >= SeedlingAge;
        kids == [] && next == k && sim.generation == old(sim.generation) &&
        state == (if dying then Dying else Alive) &&
        (culled ==> cells == [] && energy == 0 && age == 0 && sim.trees == RemoveFirst(old(sim.trees), this)) &&
        (!culled ==> cells == left && energy == e && age == old(age) + 1 && sim.trees == old(sim.trees))
      ensures old(state) == Dying ==>
        var fallen := FallFrom(old(Others(sim.trees, this)), old(cells), 0);
        var seeds := SeedFrom(fallen, 0).1;
        age == (if fallen == [] then 0 else old(age)) &&
        energy == (if fallen == [] then 0 else old(energy)) &&
        (fallen == [] ==>
          (cells == [] && kids == [] && next == k &&
           sim.trees == RemoveFirst(old(sim.trees), this) && sim.generation == old(sim.generation))) &&
        (fallen != [] ==>
          (cells == SeedFrom(fallen, 0).0 && |kids| == |seeds| && next == k + |seeds| &&
           sim.trees == old(sim.trees) + kids && sim.generation == old(sim.generation) + Fires(draws, k, |seeds|) &&
           Brood(kids, genome, dieAge, seeds, draws, k)))
      ensures |kids| <= |old(cells)| && (forall j :: 0 <= j < |kids| ==> fresh(kids[j]) && kids[j].state == Alive)
      ensures sim.trees == old(sim.trees) + kids ||
        (kids == [] && this in old(sim.trees) && sim.trees == RemoveFirst(old(sim.trees), this))
    {
      next := k;
      kids := [];
      if state == Alive {
        StepAlive(sim);
      } else {
        next, kids := StepDying(sim, draws, k);
      }
    }

    /** What a world's loop needs to know of one `step`: the world stays well formed,
        the generation counter does not go back, and the tree either stays in place with
        its new children after the end of the list, fewer than its weight, or leaves. */
    method Advance(sim: Simulation, draws: nat -> ReproDraw, k: nat) returns (next: nat, ghost kids: seq<Tree>)
      requires Valid() && sim.Valid() && this in sim.trees
      requires forall n :: ValidReproDraw(draws(n))
      modifies this, sim
      ensures sim.Valid() && sim.generation >= old(sim.generation) && next >= k
      ensures |kids| < old(Weight(this)) && (forall j :: 0 <= j < |kids| ==> fresh(kids[j]) && kids[j].state == Alive)
      ensures sim.trees == old(sim.trees) + kids ||
        (kids == [] && sim.trees == RemoveFirst(old(sim.trees), this))
    {
      next, kids := Step(sim, draws, k);
    }

    /** The Alive half of `step`: age, grow, light, settle, then the two death checks. */
    method StepAlive(sim: Simulation)
      requires Valid() && sim.Valid() && this in sim.trees && state == Alive
      modifies this, sim`trees
      ensures Valid() && sim.Valid() && genome == old(genome) && dieAge == old(dieAge)
      ensures var others := old(Others(sim.trees, this));
        var lived := Lived(genome, others, old(cells));
        var e := LivedEnergy(genome, others, old(cells), old(energy));
        var dying := e <= 0 || old(age) + 1 >= dieAge;
        var left := if dying then KeepGrowing(lived) else lived;
        var culled := |left| == 1 && old(age) + 1 >= SeedlingAge;
        state == (if dying then Dying else Alive) &&
        (culled ==> cells == [] && energy == 0 && age == 0 && sim.trees == RemoveFirst(old(sim.trees), this)) &&
        (!culled ==> cells == left && energy == e && age == old(age) + 1 && sim.trees == old(sim.trees))
    {
      ghost var others := Others(sim.trees, this);
      ghost var lived := Lived(genome, others, cells);
      ghost var e := LivedEnergy(genome, others, cells, energy);
      Live(sim);
      assert cells == lived && energy == e;
      ghost var dying := e <= 0 || age >= dieAge;
      CheckFirstDeath();
      KeepGrowingGenes(lived);
      ghost var left := if dying then KeepGrowing(lived) else lived;
      assert cells == left;
      assert sim.Valid() by {
        forall t | t in sim.trees
          ensures t.Valid()
        {
          if t != this {
            assert t in old(sim.trees);
          }
        }
      }
      CheckForDowntime(sim);
    }

    /** The first four calls of an Alive `step`: the tree ages one step, grows, its
        cells take light, and the tree settles their energy. */
    method Live(sim: Simulation)
      requires Valid() && sim.Valid() && this in sim.trees
      modifies this`age, this`cells, this`gettingEnergy, this`wasteEnergy, this`energy
      ensures Valid() && age == old(age) + 1
      ensures cells == Lived(genome, old(Others(sim.trees, this)), old(cells))
      ensures energy == LivedEnergy(genome, old(Others(sim.trees, this)), old(cells), old(energy))
    {
      ghost var others := Others(sim.trees, this);
      age := age + 1;
      Grow(sim);
      assert Others(sim.trees, this) == others;
      UpdateCells(sim);
      assert Others(sim.trees, this) == others;
      ghost var lit := cells;
      UpdateEnergy();
      HarvestCells(lit);
    }

    /** The Dying half of `step`: the cells fall, then the tree seeds or leaves. */
    method StepDying(sim: Simulation, draws: nat -> ReproDraw, k: nat) returns (next: nat, ghost kids: seq<Tree>)
      requires Valid() && sim.Valid() && this in sim.trees && state == Dying
      requires forall n :: ValidReproDraw(draws(n))
      modifies this`cells, this`energy, this`age, sim`trees, sim`generation
      ensures Valid() && sim.Valid()
      ensures var fallen := FallFrom(old(Others(sim.trees, this)), old(cells), 0);
        var seeds := SeedFrom(fallen, 0).1;
        age == (if fallen == [] then 0 else old(age)) &&
        energy == (if fallen == [] then 0 else old(energy)) &&
        (fallen == [] ==>
          (cells == [] && kids == [] && next == k &&
           sim.trees == RemoveFirst(old(sim.trees), this) && sim.generation == old(sim.generation))) &&
        (fallen != [] ==>
          (cells == SeedFrom(fallen, 0).0 && |kids| == |seeds| && next == k + |seeds| &&
           sim.trees == old(sim.trees) + kids && sim.generation == old(sim.generation) + Fires(draws, k, |seeds|) &&
           Brood(kids, genome, dieAge, seeds, draws, k)))
      ensures |kids| <= |old(cells)| && (forall j :: 0 <= j < |kids| ==> fresh(kids[j]) && kids[j].state == Alive)
      ensures sim.trees == old(sim.trees) + kids ||
        (kids == [] && this in old(sim.trees) && sim.trees == RemoveFirst(old(sim.trees), this))
    {
      FallCells(sim);
      ghost var fallen := cells;
      FallFromShape(Others(sim.trees, this), old(cells), 0);
      next, kids := CheckDeath(sim, draws, k);
    }
  }

  // ---------------------------------------------------------------------------

  class Simulation {
    var trees: seq<Tree>
    var generation: int
    const sunLevel: int := SunLevel

    /** Every tree in the list once, and each well formed. */
    predicate Valid()
      reads this, trees
    {
      Distinct(trees) && forall t :: t in trees ==> t.Valid()
    }

    /** The square (x, y) holds a cell of some tree. */
    predicate Occupied(x: int, y: int)
      reads this, trees
    {
      OccupiedIn(World(trees), x, y)
    }

    /** `how_mutch_upper`: the cells of every tree in column `x` above row `y`. */
    method CountUpper(x: int, y: int) returns (count: nat)
      ensures count == CountAbove(World(trees), x, y)
    {
      count := 0;
      for i := 0 to |trees|
        invariant count == CountAbove(World(trees[..i]), x, y)
      {
        var cs := trees[i].cells;
        assert World(trees[..i]) + cs[..0] == World(trees[..i]);
        assert World(trees[..i + 1]) == World(trees[..i]) + cs by {
          assert trees[..i + 1][..i] == trees[..i];
        }
        for j := 0 to |cs|
          invariant count == CountAbove(World(trees[..i]) + cs[..j], x, y)
        {
          assert (World(trees[..i]) + cs[..j + 1])[..|World(trees[..i])| + j] == World(trees[..i]) + cs[..j];
          if cs[j].x == x && cs[j].y < y {
            count := count + 1;
          }
        }
        assert cs[..|cs|] == cs;
      }
      assert trees[..|trees|] == trees;
    }

    /** `add_tree`: a new tree (from `genome`, or generated when it is []) joins the end
        of the list. */
    method AddTree(genome: seq<Gene>, x: int, y: int, b: BirthDraw)
      requires Valid() && (genome == [] || ValidGenes(genome)) && ValidBirthDraw(b)
      modifies this`trees
      ensures Valid() && |trees| == |old(trees)| + 1 && trees[..|old(trees)|] == old(trees)
      ensures fresh(trees[|trees| - 1]) && Born(trees[|trees| - 1], x, y, genome, [], 0, b)
    {
      var t := new Tree(x, y, genome, [], 0, b);
      trees := trees + [t];
    }

    /** `Simulation.__init__`: `startedTree` generated trees, generation 0. */
    constructor(startedTree: nat, draws: seq<BirthDraw>)
      requires |draws| >= startedTree && forall i :: 0 <= i < |draws| ==> ValidBirthDraw(draws[i])
      ensures Valid() && generation == 0 && |trees| == startedTree
      ensures forall i :: 0 <= i < startedTree ==> fresh(trees[i]) && Born(trees[i], 0, 0, [], [], 0, draws[i])
    {
      trees := [];
      generation := 0;
      new;
      for i := 0 to startedTree
        invariant Valid() && generation == 0 && |trees| == i
        invariant forall j :: 0 <= j < i ==> fresh(trees[j]) && Born(trees[j], 0, 0, [], [], 0, draws[j])
      {
        AddTree([], 0, 0, draws[i]);
      }
    }

    /** One tick of the run loop: every tree in the list steps once, in order. Seeds
        appended during the tick step in the same tick; a tree that removes itself makes
        the loop pass over the tree after it. */
    method Tick(draws: nat -> ReproDraw, k: nat) returns (next: nat)
      requires Valid() && forall n :: ValidReproDraw(draws(n))
      modifies this, trees
      ensures Valid() && generation >= old(generation) && next >= k
      ensures forall t :: t in trees ==> t in old(trees) || fresh(t)
    {
      next := k;
      var i := 0;
      while i < |trees|
        invariant Valid() && generation >= old(generation) && next >= k
        invariant forall t :: t in trees ==> t in old(trees) || fresh(t)
        decreases if i <= |trees| then Pending(trees[i..]) else 0
      {
        assert trees[i] in trees;
        next := StepAt(i, draws, next);
        i := i + 1;
      }
    }

    /** One pass of the loop in `run`: the tree at index `i` steps. What is left to visit
        from `i + 1` on weighs less than what was left from `i`, since a dying tree seeds
        at most one child per cell. */
    method StepAt(i: nat, draws: nat -> ReproDraw, k: nat) returns (next: nat)
      requires Valid() && i < |trees| && forall n :: ValidReproDraw(draws(n))
      modifies this, trees[i]
      ensures Valid() && generation >= old(generation) && next >= k
      ensures forall t :: t in trees ==> t in old(trees) || fresh(t)
      ensures (if i + 1 <= |trees| then Pending(trees[i + 1..]) else 0) < old(Pending(trees[i..]))
    {
      var t := trees[i];
      ghost var ts := trees;
      ghost var rest := trees[i + 1..];
      ghost var w := Weight(t);
      assert trees[i..] == [t] + rest && ([t] + rest)[1..] == rest;
      assert Pending(trees[i..]) == w + Pending(rest);
      ghost var pr := Pending(rest);
      assert t !in rest && t in trees;
      ghost var kids: seq<Tree>;
      next, kids := t.Advance(this, draws, k);
      assert Pending(rest) == pr;
      if trees == ts + kids {
        PendingGrown(ts, i, kids);
      } else {
        PendingRemoved(ts, t, i);
      }
    }
  }

  /** A tree's weight in a tick still to come: a Dying tree may seed as many trees as it
      has cells, and the seeds, being Alive, seed nothing in the same tick. */
  function Weight(t: Tree): nat
    reads t
  {
    if t.state == Dying then 1 + |t.cells| else 1
  }

  function Pending(ts: seq<Tree>): nat
    reads ts
  {
    if ts == [] then 0 else Weight(ts[0]) + Pending(ts[1..])
  }

  /** After seeding, the trees behind entry `i` are the old ones and the Alive seeds. */
  lemma PendingGrown(ts: seq<Tree>, i: nat, kids: seq<Tree>)
    requires i < |ts| && forall j :: 0 <= j < |kids| ==> kids[j].state == Alive
    ensures Pending((ts + kids)[i + 1..]) == Pending(ts[i + 1..]) + |kids|
  {
    assert (ts + kids)[i + 1..] == ts[i + 1..] + kids;
    PendingAppend(ts[i + 1..], kids);
    PendingAlive(kids);
  }

  /** After entry `i` is removed, the trees behind its place weigh less than those
      behind it did. */
  lemma PendingRemoved(ts: seq<Tree>, t: Tree, i: nat)
    requires Distinct(ts) && i < |ts| && ts[i] == t
    ensures var r := RemoveFirst(ts, t);
      (if i + 1 <= |r| then Pending(r[i + 1..]) else 0) <= Pending(ts[i + 1..])
  {
    RemoveAt(ts, t, i);
    var r := RemoveFirst(ts, t);
    var rest := ts[i + 1..];
    if i + 1 <= |r| {
      assert r[i + 1..] == rest[1..];
      assert rest == [rest[0]] + rest[1..];
    }
  }

  lemma {:induction false} PendingAppend(a: seq<Tree>, b: seq<Tree>)
    ensures Pending(a + b) == Pending(a) + Pending(b)
    decreases |a|
  {
    if a == [] {
      assert a + b == b;
    } else {
      assert (a + b)[1..] == a[1..] + b;
      PendingAppend(a[1..], b);
    }
  }

  lemma {:induction false} PendingAlive(ts: seq<Tree>)
    requires forall j :: 0 <= j < |ts| ==> ts[j].state == Alive
    ensures Pending(ts) == |ts|
    decreases |ts|
  {
    if ts != [] {
      PendingAlive(ts[1..]);
    }
  }
}
