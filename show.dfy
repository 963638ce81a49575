/** show.py's single tree as an object: a `Tree` owns its cell list, its genome and its
    energy account, and each `step` grows it, lights it and settles it. Cells are values
    stored in the tree's list; a cell's back-reference to its tree is the tree the
    methods run on. */
module Show {
  import opened Wrappers
  import opened Cells
  import opened Genome
  import opened GenomeText
  import opened ShowRules

  /** The energy `Tree.__init__` starts from. */
  const InitialEnergy := 300

  /** The genome `main` falls back on: sixteen copies of the record [0, 1, 2, 3], which
      grows in every direction and names the first four records. */
  function DefaultGenome(): (g: seq<Gene>)
    ensures ValidGenes(g) && |g| == GeneCount
    ensures forall k :: 0 <= k < |g| ==> g[k] == [0, 1, 2, 3]
  {
    seq(GeneCount, k => [0, 1, 2, 3])
  }

  /** How `main` obtains the genome: `file` is the text of the file the dialog chose, or
      None when none was chosen. A file whose lines do not all parse is an error (None:
      the source raises); no file, or a file without lines, gives the default genome. */
  function ChosenGenome(file: Option<string>): (r: Option<seq<seq<int>>>)
    ensures file.None? ==> r == Some(DefaultGenome())
    ensures file.Some? ==> (r.None? <==> Load(file.value).None?)
    ensures file.Some? && Load(file.value).Some? && Load(file.value).value != [] ==> r == Load(file.value)
    ensures r.Some? ==> r.value != []
  {
    match file
    case None => Some(DefaultGenome())
    case Some(text) =>
      match Load(text)
      case None => None
      case Some(g) => if g == [] then Some(DefaultGenome()) else Some(g)
  }

  /** A genome saved by main.py (`Tree.save`) is exactly the genome show.py grows from. */
  lemma ShowsSaved(genome: seq<seq<int>>)
    requires genome != [] && forall k :: 0 <= k < |genome| ==> genome[k] != []
    ensures ChosenGenome(Some(Save(genome))) == Some(genome)
  {
    LoadSave(genome);
  }

  /** An empty file falls back on the default genome. */
  lemma EmptyFileDefault()
    ensures ChosenGenome(Some("")) == Some(DefaultGenome())
  {
    assert Lines("") == [];
  }

  /** The cells one `step` leaves, from the cells `cs`: the growth pass, the light pass,
      then the harvest of `update_energy`. */
  function Stepped(genome: seq<Gene>, cs: seq<SCell>): seq<SCell>
    requires ValidGenes(genome) && AllIndexed(cs)
  {
    Harvest(Illuminate(GrowFrom(genome, cs, 0)))
  }

  /** The cells are on pairwise different squares of the grid and hold no debt. */
  predicate Sound(cs: seq<SCell>)
  {
    Spread(cs) && AllInBounds(cs) && forall k :: 0 <= k < |cs| ==> cs[k].energy >= 0
  }

  /** A step keeps the cells sound, keeps every cell in its square with its index, and
      leaves every Grown cell with no energy. */
  lemma SteppedSound(genome: seq<Gene>, cs: seq<SCell>)
    requires ValidGenes(genome) && AllIndexed(cs) && Sound(cs)
    ensures var r := Stepped(genome, cs);
      Sound(r) && AllIndexed(r) && |r| >= |cs| &&
      (forall k :: 0 <= k < |cs| ==> r[k].x == cs[k].x && r[k].y == cs[k].y && r[k].gene == cs[k].gene) &&
      (forall k :: 0 <= k < |r| && r[k].state == Grown ==> r[k].energy == 0)
  {
    var g := GrowFrom(genome, cs, 0);
    GrowFromPlaces(genome, cs, 0);
    GrowFromNonnegative(genome, cs);
    GrowFromShape(genome, cs, 0);
    var l := Illuminate(g);
    IlluminateFacts(g);
    var r := Harvest(l);
    HarvestCells(l);
    assert SamePlaces(r, g);
    assert Spread(r) by {
      forall j, k | 0 <= j < k < |r|
        ensures r[j].x != r[k].x || r[j].y != r[k].y
      {
        assert g[j].x != g[k].x || g[j].y != g[k].y;
      }
    }
  }

  /** The first cell `main` plants: the middle column of the ground row, index 0, with the
      energy of its first light pass: exactly what growing costs. */
  lemma FirstLight()
    ensures Illuminate([Sprout(Cols / 2, Rows - 1, 0)]) == [Cell(40, 59, 0, Growing, GrowthEnergy)]
  {
    var s := [Sprout(Cols / 2, Rows - 1, 0)];
    assert CountAbove(s, 40, 59) == 0 by {
      assert s[..0] == [];
    }
    assert Level(Rows, SunLevel, 59) == 6;
  }

  class Tree {
    var cells: seq<SCell>
    var genome: seq<Gene>
    var gettingEnergy: int
    var wasteEnergy: int
    var energy: int

    /** The first 16 genome entries are gene records and every cell names one of them. */
    predicate Valid()
      reads this
    {
      ValidGenes(genome) && AllIndexed(cells)
    }

    /** `Tree()` with `main`'s genome assignment: no cells, nothing settled, 300 energy. */
    constructor(genome0: seq<Gene>)
      requires ValidGenes(genome0)
      ensures Valid() && cells == [] && genome == genome0
      ensures gettingEnergy == 0 && wasteEnergy == 0 && energy == InitialEnergy
    {
      cells := [];
      genome := genome0;
      gettingEnergy := 0;
      wasteEnergy := 0;
      energy := InitialEnergy;
    }

    /** `grow_tree`: every cell of the list, children appended during the loop included,
        takes one turn. */
    method GrowTree()
      requires Valid()
      modifies this`cells
      ensures Valid() && cells == GrowFrom(genome, old(cells), 0)
    {
      ghost var start := cells;
      var i := 0;
      while i < |cells|
        invariant i <= |cells| && Valid()
        invariant GrowFrom(genome, cells, i) == GrowFrom(genome, start, 0)
        decreases |cells| - i + 4 * RichCount(cells[i..])
      {
        ghost var before := cells;
        GrowTurn(i);
        GrowCellShape(genome, before, i);
        GrowCellMeasure(genome, before, i);
        i := i + 1;
      }
    }

    /** The turn of the cell at index `i`: the four directions in order, then the payment
        (once, however many children) and the settling of the cell. */
    method GrowTurn(i: nat)
      requires Valid() && i < |cells|
      modifies this`cells
      ensures Valid() && cells == GrowCell(genome, old(cells), i)
    {
      ghost var before := cells;
      var cell := cells[i];
      if cell.state == Growing {
        var canGrow, isGrowed := TryDirections(cell);
        ghost var a := TryFrom(genome, cell, Attempt(before, false, false), 0);
        assert a.cells == cells && a.canGrow == canGrow && a.grew == isGrowed;
        var settled := cell;
        if isGrowed {
          settled := settled.(energy := settled.energy - GrowthEnergy, state := Grown);
        }
        if !canGrow {
          settled := settled.(state := Grown);
        }
        cells := cells[i := settled];
        assert cells == GrowCell(genome, before, i);
      }
    }

    /** The inner loop over the four directions for the Growing cell `cell`. */
    method TryDirections(cell: SCell) returns (canGrow: bool, isGrowed: bool)
      requires Valid() && Indexed(cell)
      modifies this`cells
      ensures Valid() && |cells| >= old(|cells|) && forall j :: 0 <= j < old(|cells|) ==> cells[j] == old(cells[j])
      ensures Attempt(cells, canGrow, isGrowed) == TryFrom(genome, cell, Attempt(old(cells), false, false), 0)
    {
      ghost var before := cells;
      canGrow, isGrowed := false, false;
      for d := 0 to 4
        invariant Valid()
        invariant |cells| >= |before| && forall j :: 0 <= j < |before| ==> cells[j] == before[j]
        invariant TryFrom(genome, cell, Attempt(cells, canGrow, isGrowed), d) ==
          TryFrom(genome, cell, Attempt(before, false, false), 0)
      {
        ghost var a := Attempt(cells, canGrow, isGrowed);
        canGrow, isGrowed := TryDirection(cell, d, canGrow, isGrowed);
        TryStepExtends(genome, cell, a, d);
      }
    }

    /** Direction `d` of the inner loop: the gene's outcome, the grid bounds, the
        occupancy test against the tree's current list, then the energy test. */
    method TryDirection(cell: SCell, d: nat, canGrow: bool, isGrowed: bool) returns (canGrow': bool, isGrowed': bool)
      requires Valid() && Indexed(cell) && d < 4
      modifies this`cells
      ensures Valid()
      ensures Attempt(cells, canGrow', isGrowed') == TryStep(genome, cell, Attempt(old(cells), canGrow, isGrowed), d)
    {
      canGrow', isGrowed' := canGrow, isGrowed;
      var currentGene := genome[cell.gene];
      if currentGene[d] == Blocked {
        return;
      }
      var p := Neighbour(cell, d);
      if InBounds(p.x, p.y) && !Taken(p, cells) {
        canGrow' := true;
        if cell.energy >= GrowthEnergy {
          AddCell(p.x, p.y, Growing, currentGene[d]);
          isGrowed' := true;
        }
      }
    }

    /** `add_cell`: a new cell with no energy joins the end of the list. */
    method AddCell(x: int, y: int, state: Maturity, genIndex: int)
      modifies this`cells
      ensures cells == old(cells) + [Cell(x, y, genIndex, state, 0)]
    {
      cells := cells + [Cell(x, y, genIndex, state, 0)];
    }

    /** `how_mutch_upper` for a cell at column `x`, row `y`: the tree's cells in that
        column strictly above it. */
    method HowMuchUpper(x: int, y: int) returns (count: nat)
      ensures count == CountAbove(cells, x, y)
    {
      count := 0;
      for j := 0 to |cells|
        invariant count == CountAbove(cells[..j], x, y)
      {
        assert cells[..j + 1][..j] == cells[..j];
        if cells[j].x == x && cells[j].y < y {
          count := count + 1;
        }
      }
      assert cells[..|cells|] == cells;
    }

    /** `update_cells`: every cell counts the cells above it, looks up its light level
        and banks its gain; positions do not change during the pass. */
    method UpdateCells()
      modifies this`cells
      ensures cells == Illuminate(old(cells))
    {
      ghost var start := cells;
      ghost var lit := Illuminate(start);
      var k := 0;
      while k < |cells|
        invariant k <= |cells| == |start|
        invariant forall j :: 0 <= j < k ==> cells[j] == lit[j]
        invariant forall j :: k <= j < |cells| ==> cells[j] == start[j]
      {
        LightCell(k, start);
        k := k + 1;
      }
      assert cells == lit;
    }

    /** `Cell.update_energy` for the cell at index `k`, while the cells sit where they
        sat at the start of the pass. */
    method LightCell(k: nat, ghost start: seq<SCell>)
      requires k < |cells| && SamePlaces(cells, start) && cells[k] == start[k]
      modifies this`cells
      ensures cells == old(cells)[k := Illuminate(start)[k]]
    {
      var c := cells[k];
      var upper := HowMuchUpper(c.x, c.y);
      CountAbovePlaces(cells, start, c.x, c.y);
      var level := Level(Rows, SunLevel, c.y);
      cells := cells[k := Accrue(c, level, upper)];
    }

    /** `update_energy`: the Grown cells' energy is harvested into the tree, and every
        cell costs the upkeep. */
    method UpdateEnergy()
      modifies this`cells, this`gettingEnergy, this`wasteEnergy, this`energy
      ensures gettingEnergy == SumGrown(old(cells))
      ensures cells == Harvest(old(cells))
      ensures wasteEnergy == |cells| * Upkeep
      ensures energy == old(energy) + gettingEnergy - wasteEnergy
    {
      gettingEnergy := SumGrown(cells);
      DellCellsEnergy();
      wasteEnergy := |cells| * Upkeep;
      energy := energy + gettingEnergy - wasteEnergy;
    }

    /** `dell_cells_energy`: every Grown cell's energy goes to 0. */
    method DellCellsEnergy()
      modifies this`cells
      ensures cells == Harvest(old(cells))
    {
      ghost var start := cells;
      var k := 0;
      while k < |cells|
        invariant k <= |cells| == |start|
        invariant forall j :: 0 <= j < k ==> cells[j] == Harvested(start[j])
        invariant forall j :: k <= j < |cells| ==> cells[j] == start[j]
      {
        if cells[k].state == Grown {
          cells := cells[k := cells[k].(energy := 0)];
        }
        k := k + 1;
      }
    }

    /** `step`: growth, light, settlement. The tree's energy moves by what its Grown
        cells banked minus the upkeep of every cell; soundness of the cells is kept. */
    method Step()
      requires Valid()
      modifies this`cells, this`gettingEnergy, this`wasteEnergy, this`energy
      ensures Valid() && cells == Stepped(genome, old(cells))
      ensures gettingEnergy == SumGrown(Illuminate(GrowFrom(genome, old(cells), 0)))
      ensures wasteEnergy == |cells| * Upkeep
      ensures energy == old(energy) + gettingEnergy - wasteEnergy
      ensures Sound(old(cells)) ==> Sound(cells)
    {
      ghost var start := cells;
      GrowTree();
      UpdateCells();
      UpdateEnergy();
      if Sound(start) {
        SteppedSound(genome, start);
      }
    }
  }

  /** `main`'s set-up once the genome is chosen: the tree, its first cell in the middle of
      the ground row with index 0, and one light pass (no settlement). */
  method Start(genome: seq<Gene>) returns (t: Tree)
    requires ValidGenes(genome)
    ensures fresh(t) && t.Valid() && t.genome == genome && Sound(t.cells)
    ensures t.cells == [Cell(Cols / 2, Rows - 1, 0, Growing, GrowthEnergy)]
    ensures t.energy == InitialEnergy && t.gettingEnergy == 0 && t.wasteEnergy == 0
  {
    t := new Tree(genome);
    t.AddCell(Cols / 2, Rows - 1, Growing, 0);
    t.UpdateCells();
    FirstLight();
  }
}
