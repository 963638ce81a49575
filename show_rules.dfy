/** The rules of show.py's single tree, as functions of values: where a cell may grow
    (`Tree.grow_tree`), how a pass of growth over the tree's cell list unfolds, and the
    light pass of `update_cells`. Unlike main.py's world there are no other trees, the
    grid has hard edges on all four sides, and a cell keeps the index of its gene record
    in the genome rather than the record itself. */
module ShowRules {
  import opened Wrappers
  import opened Seqs
  import opened Cells
  import opened Genome

  const Width := 1000
  const Height := 600
  const CellSize := 10
  /** Lattice columns (80: the right 200 pixels show the genome) and rows (60). */
  const Cols := (Width - 200) / CellSize
  const Rows := Height / CellSize
  /** The sun level `update_level` adds to the height above the ground. */
  const SunLevel := 6

  /** A cell of show.py: `gene` is its `gen_index`. */
  type SCell = Cell<int>

  predicate InBounds(x: int, y: int)
  {
    0 <= x < Cols && 0 <= y < Rows
  }

  predicate AllInBounds(cs: seq<SCell>)
  {
    forall k :: 0 <= k < |cs| ==> InBounds(cs[k].x, cs[k].y)
  }

  /** A cell names one of the 16 gene records. */
  predicate Indexed(c: SCell)
  {
    0 <= c.gene <= MaxGene
  }

  predicate AllIndexed(cs: seq<SCell>)
  {
    forall k :: 0 <= k < |cs| ==> Indexed(cs[k])
  }

  /** `current_gene`: the gene record a cell's index names. */
  function GeneOf(genome: seq<Gene>, c: SCell): (g: Gene)
    requires ValidGenes(genome) && Indexed(c)
    ensures ValidGene(g) && g == genome[c.gene]
  {
    genome[c.gene]
  }

  // ---------------------------------------------------------------------------
  // Where a cell may grow

  /** The neighbour direction `d` (0 Up, 1 Left, 2 Right, 3 Down) of cell `c` leads to. */
  function Neighbour(c: SCell, d: int): Pos
    requires 0 <= d < 4
  {
    if d == 0 then Pos(c.x, c.y - 1)
    else if d == 1 then Pos(c.x - 1, c.y)
    else if d == 2 then Pos(c.x + 1, c.y)
    else Pos(c.x, c.y + 1)
  }

  /** The square direction `d` leads to, when it lies on the grid. */
  function Target(c: SCell, d: int): (r: Option<Pos>)
    requires 0 <= d < 4
    ensures r.Some? <==> InBounds(Neighbour(c, d).x, Neighbour(c, d).y)
    ensures r.Some? ==> r.value == Neighbour(c, d)
  {
    var p := Neighbour(c, d);
    if InBounds(p.x, p.y) then Some(p) else None
  }

  /** Every target is one of the four lattice neighbours, inside the grid, and two
      directions never lead to the same square. */
  lemma TargetGeometry(c: SCell, d: int)
    requires 0 <= d < 4 && Target(c, d).Some?
    ensures var p := Target(c, d).value;
      InBounds(p.x, p.y) && (p.x == c.x) != (p.y == c.y) &&
      (p.x == c.x ==> p.y == c.y - 1 || p.y == c.y + 1) &&
      (p.y == c.y ==> p.x == c.x - 1 || p.x == c.x + 1)
  {
  }

  lemma TargetsDistinct(c: SCell, d: int, d': int)
    requires 0 <= d < 4 && 0 <= d' < 4 && d != d'
    requires Target(c, d).Some? && Target(c, d').Some?
    ensures Target(c, d).value != Target(c, d').value
  {
  }

  /** The square is held by a cell of the tree's current list. */
  predicate Taken(p: Pos, cs: seq<SCell>)
  {
    OccupiedIn(cs, p.x, p.y)
  }

  /** Direction `d` is growable for `c` against the cells `cs`: the gene record does not
      block it, the square is on the grid and no cell holds it. */
  function Opening(genome: seq<Gene>, c: SCell, cs: seq<SCell>, d: int): (r: Option<Pos>)
    requires ValidGenes(genome) && Indexed(c) && 0 <= d < 4
    ensures r.Some? <==> GeneOf(genome, c)[d] != Blocked && Target(c, d).Some? && !Taken(Target(c, d).value, cs)
    ensures r.Some? ==> r == Target(c, d)
  {
    if GeneOf(genome, c)[d] == Blocked then None
    else
      match Target(c, d)
      case None => None
      case Some(p) => if Taken(p, cs) then None else Some(p)
  }

  /** Some direction from `d` on is growable. */
  predicate OpenFrom(genome: seq<Gene>, c: SCell, cs: seq<SCell>, d: nat)
    requires ValidGenes(genome) && Indexed(c) && d <= 4
    decreases 4 - d
  {
    d < 4 && (Opening(genome, c, cs, d).Some? || OpenFrom(genome, c, cs, d + 1))
  }

  predicate CanGrow(genome: seq<Gene>, c: SCell, cs: seq<SCell>)
    requires ValidGenes(genome) && Indexed(c)
  {
    OpenFrom(genome, c, cs, 0)
  }

  lemma {:induction false} OpenFromExists(genome: seq<Gene>, c: SCell, cs: seq<SCell>, d: nat)
    requires ValidGenes(genome) && Indexed(c) && d <= 4
    ensures OpenFrom(genome, c, cs, d) <==> exists e :: d <= e < 4 && Opening(genome, c, cs, e).Some?
    decreases 4 - d
  {
    if d < 4 {
      OpenFromExists(genome, c, cs, d + 1);
    }
  }

  /** `can_grow` in words: some direction is not blocked, on the grid and free. */
  lemma CanGrowMeans(genome: seq<Gene>, c: SCell, cs: seq<SCell>)
    requires ValidGenes(genome) && Indexed(c)
    ensures CanGrow(genome, c, cs) <==>
      exists d :: 0 <= d < 4 && genome[c.gene][d] != Blocked && Target(c, d).Some? &&
        !Taken(Target(c, d).value, cs)
  {
    OpenFromExists(genome, c, cs, 0);
    if CanGrow(genome, c, cs) {
      var d :| 0 <= d < 4 && Opening(genome, c, cs, d).Some?;
      assert genome[c.gene][d] != Blocked && Target(c, d).Some? && !Taken(Target(c, d).value, cs);
    }
  }

  /** The child direction `d` alone gives, if it is growable: it carries the index the
      direction's outcome names. */
  function Here(genome: seq<Gene>, c: SCell, cs: seq<SCell>, d: nat): seq<SCell>
    requires ValidGenes(genome) && Indexed(c) && d < 4
  {
    match Opening(genome, c, cs, d)
    case None => []
    case Some(p) => [Sprout(p.x, p.y, GeneOf(genome, c)[d])]
  }

  /** The children a cell with enough energy grows from direction `d` on, judged against
      the cells `cs` it sees when its turn comes. */
  function Sprouts(genome: seq<Gene>, c: SCell, cs: seq<SCell>, d: nat): seq<SCell>
    requires ValidGenes(genome) && Indexed(c) && d <= 4
    decreases 4 - d
  {
    if d == 4 then [] else Here(genome, c, cs, d) + Sprouts(genome, c, cs, d + 1)
  }

  /** No cell of `extra` sits on a square that direction `d` or a later one leads to. */
  predicate OffTargets(c: SCell, extra: seq<SCell>, d: nat)
  {
    forall k, e :: 0 <= k < |extra| && d <= e < 4 && Target(c, e).Some? ==> PlaceOf(extra[k]) != Target(c, e).value
  }

  /** At most one child per direction left, and some exactly when a direction is growable. */
  lemma {:induction false} SproutsCount(genome: seq<Gene>, c: SCell, cs: seq<SCell>, d: nat)
    requires ValidGenes(genome) && Indexed(c) && d <= 4
    ensures |Sprouts(genome, c, cs, d)| <= 4 - d
    ensures |Sprouts(genome, c, cs, d)| > 0 <==> OpenFrom(genome, c, cs, d)
    decreases 4 - d
  {
    if d < 4 {
      SproutsCount(genome, c, cs, d + 1);
    }
  }

  /** `n` is the child `c` grows in some direction from `d` on: it stands on that
      direction's growable square and carries the index the direction's outcome names. */
  predicate GrownFrom(genome: seq<Gene>, c: SCell, cs: seq<SCell>, n: SCell, d: nat)
    requires ValidGenes(genome) && Indexed(c)
  {
    exists e :: d <= e < 4 && Opening(genome, c, cs, e) == Some(PlaceOf(n)) && n.gene == genome[c.gene][e]
  }

  /** Every child is fresh and growing, names one of the 16 gene records, and is grown
      from some direction from `d` on. */
  lemma {:induction false} SproutsCells(genome: seq<Gene>, c: SCell, cs: seq<SCell>, d: nat)
    requires ValidGenes(genome) && Indexed(c) && d <= 4
    ensures var s := Sprouts(genome, c, cs, d);
      forall k :: 0 <= k < |s| ==>
        s[k].state == Growing && s[k].energy == 0 && Indexed(s[k]) && GrownFrom(genome, c, cs, s[k], d)
    decreases 4 - d
  {
    if d < 4 {
      var rest := Sprouts(genome, c, cs, d + 1);
      SproutsCells(genome, c, cs, d + 1);
      var h := Here(genome, c, cs, d);
      var s := Sprouts(genome, c, cs, d);
      assert s == h + rest;
      forall k | 0 <= k < |s|
        ensures s[k].state == Growing && s[k].energy == 0 && Indexed(s[k]) && GrownFrom(genome, c, cs, s[k], d)
      {
        if k < |h| {
          assert s[k] == h[0];
          assert Opening(genome, c, cs, d) == Some(PlaceOf(s[k])) && s[k].gene == genome[c.gene][d];
        } else {
          assert s[k] == rest[k - |h|];
          assert GrownFrom(genome, c, cs, rest[k - |h|], d + 1);
          var e :| d + 1 <= e < 4 && Opening(genome, c, cs, e) == Some(PlaceOf(rest[k - |h|])) &&
            rest[k - |h|].gene == genome[c.gene][e];
        }
      }
    }
  }

  /** Children stand on pairwise different free squares of the grid and name gene records. */
  lemma SproutsPlaces(genome: seq<Gene>, c: SCell, cs: seq<SCell>)
    requires ValidGenes(genome) && Indexed(c)
    ensures var s := Sprouts(genome, c, cs, 0);
      Spread(s) && AllIndexed(s) && AllInBounds(s) &&
      forall k :: 0 <= k < |s| ==> !Taken(PlaceOf(s[k]), cs)
  {
    SproutsFree(genome, c, cs);
    SproutsSpread(genome, c, cs);
  }

  lemma SproutsFree(genome: seq<Gene>, c: SCell, cs: seq<SCell>)
    requires ValidGenes(genome) && Indexed(c)
    ensures var s := Sprouts(genome, c, cs, 0);
      AllIndexed(s) && AllInBounds(s) && forall k :: 0 <= k < |s| ==> !Taken(PlaceOf(s[k]), cs)
  {
    var s := Sprouts(genome, c, cs, 0);
    SproutsCells(genome, c, cs, 0);
    forall k | 0 <= k < |s|
      ensures !Taken(PlaceOf(s[k]), cs) && InBounds(s[k].x, s[k].y)
    {
      GrownFree(genome, c, cs, s[k]);
    }
  }

  /** A child stands on a free square of the grid. */
  lemma GrownFree(genome: seq<Gene>, c: SCell, cs: seq<SCell>, n: SCell)
    requires ValidGenes(genome) && Indexed(c) && GrownFrom(genome, c, cs, n, 0)
    ensures !Taken(PlaceOf(n), cs) && InBounds(n.x, n.y)
  {
    var e :| 0 <= e < 4 && Opening(genome, c, cs, e) == Some(PlaceOf(n)) && n.gene == genome[c.gene][e];
  }

  lemma SproutsSpread(genome: seq<Gene>, c: SCell, cs: seq<SCell>)
    requires ValidGenes(genome) && Indexed(c)
    ensures Spread(Sprouts(genome, c, cs, 0))
  {
    var s := Sprouts(genome, c, cs, 0);
    forall j, k | 0 <= j < k < |s|
      ensures s[j].x != s[k].x || s[j].y != s[k].y
    {
      SproutsOrder(genome, c, cs, 0, j, k);
    }
  }

  /** Children come in direction order, so two of them never share a square. */
  lemma {:induction false} SproutsOrder(genome: seq<Gene>, c: SCell, cs: seq<SCell>, d: nat, j: nat, k: nat)
    requires ValidGenes(genome) && Indexed(c) && d <= 4
    requires j < k < |Sprouts(genome, c, cs, d)|
    ensures PlaceOf(Sprouts(genome, c, cs, d)[j]) != PlaceOf(Sprouts(genome, c, cs, d)[k])
    decreases 4 - d, 1
  {
    if Opening(genome, c, cs, d).None? {
      SproutsOrderSkip(genome, c, cs, d, j, k);
    } else if j == 0 {
      SproutsOrderHead(genome, c, cs, d, Opening(genome, c, cs, d).value, k);
    } else {
      SproutsOrderTail(genome, c, cs, d, j, k);
    }
  }

  /** A direction that is not growable adds no child. */
  lemma {:induction false} SproutsOrderSkip(genome: seq<Gene>, c: SCell, cs: seq<SCell>, d: nat, j: nat, k: nat)
    requires ValidGenes(genome) && Indexed(c) && d < 4 && Opening(genome, c, cs, d).None?
    requires j < k < |Sprouts(genome, c, cs, d)|
    ensures PlaceOf(Sprouts(genome, c, cs, d)[j]) != PlaceOf(Sprouts(genome, c, cs, d)[k])
    decreases 4 - d, 0
  {
    SproutsUnfold(genome, c, cs, d);
    SproutsOrder(genome, c, cs, d + 1, j, k);
  }

  /** Two children after the first of a growable direction are the later directions'. */
  lemma {:induction false} SproutsOrderTail(genome: seq<Gene>, c: SCell, cs: seq<SCell>, d: nat, j: nat, k: nat)
    requires ValidGenes(genome) && Indexed(c) && d < 4 && Opening(genome, c, cs, d).Some?
    requires 0 < j < k < |Sprouts(genome, c, cs, d)|
    ensures PlaceOf(Sprouts(genome, c, cs, d)[j]) != PlaceOf(Sprouts(genome, c, cs, d)[k])
    decreases 4 - d, 0
  {
    SproutsUnfold(genome, c, cs, d);
    var rest := Sprouts(genome, c, cs, d + 1);
    var s := Sprouts(genome, c, cs, d);
    var o := Opening(genome, c, cs, d).value;
    ConsShift(s, Sprout(o.x, o.y, GeneOf(genome, c)[d]), rest, j);
    ConsShift(s, Sprout(o.x, o.y, GeneOf(genome, c)[d]), rest, k);
    SproutsOrder(genome, c, cs, d + 1, j - 1, k - 1);
  }

  /** One direction of Sprouts: nothing when it is not growable, else its child first. */
  lemma SproutsUnfold(genome: seq<Gene>, c: SCell, cs: seq<SCell>, d: nat)
    requires ValidGenes(genome) && Indexed(c) && d < 4
    ensures var o := Opening(genome, c, cs, d);
      (o.None? ==> Sprouts(genome, c, cs, d) == Sprouts(genome, c, cs, d + 1)) &&
      (o.Some? ==>
         Sprouts(genome, c, cs, d) == [Sprout(o.value.x, o.value.y, GeneOf(genome, c)[d])] + Sprouts(genome, c, cs, d + 1))
  {
    var rest := Sprouts(genome, c, cs, d + 1);
    assert Sprouts(genome, c, cs, d) == Here(genome, c, cs, d) + rest;
    if Opening(genome, c, cs, d).None? {
      assert Here(genome, c, cs, d) + rest == rest;
    }
  }

  /** The child of direction `d` sits apart from every later child. */
  lemma SproutsOrderHead(genome: seq<Gene>, c: SCell, cs: seq<SCell>, d: nat, p: Pos, k: nat)
    requires ValidGenes(genome) && Indexed(c) && d < 4 && Opening(genome, c, cs, d) == Some(p)
    requires 0 < k < |Sprouts(genome, c, cs, d)|
    ensures PlaceOf(Sprouts(genome, c, cs, d)[0]) != PlaceOf(Sprouts(genome, c, cs, d)[k])
  {
    var rest := Sprouts(genome, c, cs, d + 1);
    var s := Sprouts(genome, c, cs, d);
    assert s == [Sprout(p.x, p.y, GeneOf(genome, c)[d])] + rest;
    SproutsCells(genome, c, cs, d + 1);
    assert s[k] == rest[k - 1] && PlaceOf(s[0]) == p;
    var e :| d + 1 <= e < 4 && Opening(genome, c, cs, e) == Some(PlaceOf(rest[k - 1])) &&
      rest[k - 1].gene == genome[c.gene][e];
    TargetsDistinct(c, d, e);
  }

  // ---------------------------------------------------------------------------
  // One cell's turn in `grow_tree`

  /** The progress of one cell's turn: the tree's cell list so far and the two flags. */
  datatype Attempt = Attempt(cells: seq<SCell>, canGrow: bool, grew: bool)

  /** Direction `d` of the inner loop, as the source runs it: a growable direction sets
      `can_grow`, and with enough energy appends a child to the list at once, so later
      directions see it. */
  function TryStep(genome: seq<Gene>, c: SCell, a: Attempt, d: nat): Attempt
    requires ValidGenes(genome) && Indexed(c) && d < 4
  {
    var gene := GeneOf(genome, c);
    if gene[d] == Blocked then a
    else
      match Target(c, d)
      case None => a
      case Some(p) =>
        if Taken(p, a.cells) then a
        else if c.energy >= GrowthEnergy then Attempt(a.cells + [Sprout(p.x, p.y, gene[d])], true, true)
        else a.(canGrow := true)
  }

  /** A direction only ever appends to the list. */
  lemma TryStepExtends(genome: seq<Gene>, c: SCell, a: Attempt, d: nat)
    requires ValidGenes(genome) && Indexed(c) && d < 4
    ensures var r := TryStep(genome, c, a, d).cells;
      |r| >= |a.cells| && forall j :: 0 <= j < |a.cells| ==> r[j] == a.cells[j]
  {
  }

  /** The inner loop over directions `d` to 3. */
  function TryFrom(genome: seq<Gene>, c: SCell, a: Attempt, d: nat): Attempt
    requires ValidGenes(genome) && Indexed(c) && d <= 4
    decreases 4 - d
  {
    if d == 4 then a else TryFrom(genome, c, TryStep(genome, c, a, d), d + 1)
  }

  lemma TakenExtra(p: Pos, cs: seq<SCell>, extra: seq<SCell>)
    requires forall k :: 0 <= k < |extra| ==> PlaceOf(extra[k]) != p
    ensures Taken(p, cs + extra) <==> Taken(p, cs)
  {
    OccupiedAppend(cs, extra, p.x, p.y);
    assert !OccupiedIn(extra, p.x, p.y) by {
      forall k | 0 <= k < |extra|
        ensures !(extra[k].x == p.x && extra[k].y == p.y)
      {
        assert PlaceOf(extra[k]) != p;
      }
    }
  }

  /** One direction judged against the list with earlier children appended decides as it
      would against the list at the start of the turn. */
  lemma TryStepSnapshot(genome: seq<Gene>, c: SCell, cs: seq<SCell>, extra: seq<SCell>, cg: bool, gr: bool, d: nat)
    requires ValidGenes(genome) && Indexed(c) && d < 4
    requires OffTargets(c, extra, d)
    ensures var open := Opening(genome, c, cs, d).Some?;
      var rich := c.energy >= GrowthEnergy;
      TryStep(genome, c, Attempt(cs + extra, cg, gr), d) ==
        Attempt(cs + extra + (if rich then Here(genome, c, cs, d) else []), cg || open, gr || (rich && open))
  {
    if GeneOf(genome, c)[d] != Blocked && Target(c, d).Some? {
      var p := Target(c, d).value;
      assert forall k :: 0 <= k < |extra| ==> PlaceOf(extra[k]) != p;
      TakenExtra(p, cs, extra);
    }
  }

  /** A child of direction `d` is off the squares of every later direction. */
  lemma HereOffTargets(genome: seq<Gene>, c: SCell, cs: seq<SCell>, extra: seq<SCell>, d: nat)
    requires ValidGenes(genome) && Indexed(c) && d < 4
    requires OffTargets(c, extra, d)
    ensures OffTargets(c, extra + Here(genome, c, cs, d), d + 1)
  {
    var h := Here(genome, c, cs, d);
    var e' := extra + h;
    forall k, e | 0 <= k < |e'| && d + 1 <= e < 4 && Target(c, e).Some?
      ensures PlaceOf(e'[k]) != Target(c, e).value
    {
      if k < |extra| {
        assert e'[k] == extra[k];
      } else {
        assert e'[k] == h[k - |extra|];
        TargetsDistinct(c, d, e);
      }
    }
  }

  /** The children appended during the turn never block a later direction, because every
      direction leads elsewhere: the sequential loop does what judging all four
      directions against the list at the start of the turn does. */
  lemma {:induction false} TryFromSnapshot(genome: seq<Gene>, c: SCell, cs: seq<SCell>,
                                           extra: seq<SCell>, cg: bool, gr: bool, d: nat)
    requires ValidGenes(genome) && Indexed(c) && d <= 4
    requires OffTargets(c, extra, d)
    ensures TryFrom(genome, c, Attempt(cs + extra, cg, gr), d) ==
      Attempt(cs + extra + (if c.energy >= GrowthEnergy then Sprouts(genome, c, cs, d) else []),
              cg || OpenFrom(genome, c, cs, d),
              gr || (c.energy >= GrowthEnergy && OpenFrom(genome, c, cs, d)))
    decreases 4 - d
  {
    if d == 4 {
      assert cs + extra + [] == cs + extra;
    } else {
      var open := Opening(genome, c, cs, d).Some?;
      if c.energy >= GrowthEnergy {
        var h := Here(genome, c, cs, d);
        HereOffTargets(genome, c, cs, extra, d);
        TryFromSnapshot(genome, c, cs, extra + h, cg || open, gr || open, d + 1);
        SnapshotRich(genome, c, cs, extra, cg, gr, d);
      } else {
        TryFromSnapshot(genome, c, cs, extra, cg || open, gr, d + 1);
        SnapshotPoor(genome, c, cs, extra, cg, gr, d);
      }
    }
  }

  /** The step of the proof above for a cell that can pay. */
  lemma SnapshotRich(genome: seq<Gene>, c: SCell, cs: seq<SCell>, extra: seq<SCell>, cg: bool, gr: bool, d: nat)
    requires ValidGenes(genome) && Indexed(c) && d < 4 && c.energy >= GrowthEnergy
    requires OffTargets(c, extra, d)
    requires var open := Opening(genome, c, cs, d).Some?;
      var h := Here(genome, c, cs, d);
      TryFrom(genome, c, Attempt(cs + (extra + h), cg || open, gr || open), d + 1) ==
        Attempt(cs + (extra + h) + Sprouts(genome, c, cs, d + 1),
                cg || open || OpenFrom(genome, c, cs, d + 1), gr || open || OpenFrom(genome, c, cs, d + 1))
    ensures TryFrom(genome, c, Attempt(cs + extra, cg, gr), d) ==
      Attempt(cs + extra + Sprouts(genome, c, cs, d), cg || OpenFrom(genome, c, cs, d), gr || OpenFrom(genome, c, cs, d))
  {
    var open := Opening(genome, c, cs, d).Some?;
    var h := Here(genome, c, cs, d);
    var rest := Sprouts(genome, c, cs, d + 1);
    var a := Attempt(cs + extra, cg, gr);
    TryStepSnapshot(genome, c, cs, extra, cg, gr, d);
    assert cs + extra + h == cs + (extra + h);
    assert TryStep(genome, c, a, d) == Attempt(cs + (extra + h), cg || open, gr || open);
    assert TryFrom(genome, c, a, d) == TryFrom(genome, c, TryStep(genome, c, a, d), d + 1);
    assert Sprouts(genome, c, cs, d) == h + rest;
    assert OpenFrom(genome, c, cs, d) == (open || OpenFrom(genome, c, cs, d + 1));
    AppendRegroup(cs, extra, h, rest);
  }

  /** The same step for a cell that cannot pay: nothing is appended. */
  lemma SnapshotPoor(genome: seq<Gene>, c: SCell, cs: seq<SCell>, extra: seq<SCell>, cg: bool, gr: bool, d: nat)
    requires ValidGenes(genome) && Indexed(c) && d < 4 && c.energy < GrowthEnergy
    requires OffTargets(c, extra, d)
    requires var open := Opening(genome, c, cs, d).Some?;
      TryFrom(genome, c, Attempt(cs + extra, cg || open, gr), d + 1) ==
        Attempt(cs + extra, cg || open || OpenFrom(genome, c, cs, d + 1), gr)
    ensures TryFrom(genome, c, Attempt(cs + extra, cg, gr), d) ==
      Attempt(cs + extra, cg || OpenFrom(genome, c, cs, d), gr)
  {
    TryStepSnapshot(genome, c, cs, extra, cg, gr, d);
    assert cs + extra + [] == cs + extra;
  }

  /** One turn of `grow_tree` for the cell at index `i`: the loop over the four
      directions from the list as it stands, then the payment and the settling. */
  function GrowCell(genome: seq<Gene>, cs: seq<SCell>, i: nat): (r: seq<SCell>)
    requires ValidGenes(genome) && AllIndexed(cs) && i < |cs|
    ensures cs[i].state == Grown ==> r == cs
  {
    var c := cs[i];
    if c.state != Growing then cs
    else
      var a := TryFrom(genome, c, Attempt(cs, false, false), 0);
      var grown := if a.grew then c.(energy := c.energy - GrowthEnergy, state := Grown) else c;
      var settled := if !a.canGrow then grown.(state := Grown) else grown;
      a.cells[i := settled]
  }

  /** What one turn does, case by case: a Grown cell is skipped; a Growing cell with no
      growable direction becomes Grown; one with a growable direction but less than 18
      energy stays as it is; otherwise it pays 18 once, becomes Grown, and a child is
      appended on every growable square. */
  lemma GrowCellCases(genome: seq<Gene>, cs: seq<SCell>, i: nat)
    requires ValidGenes(genome) && AllIndexed(cs) && i < |cs|
    ensures var r := GrowCell(genome, cs, i);
      (cs[i].state == Grown ==> r == cs) &&
      (cs[i].state == Growing && !CanGrow(genome, cs[i], cs) ==> r == cs[i := cs[i].(state := Grown)]) &&
      (cs[i].state == Growing && CanGrow(genome, cs[i], cs) && cs[i].energy < GrowthEnergy ==> r == cs) &&
      (cs[i].state == Growing && CanGrow(genome, cs[i], cs) && cs[i].energy >= GrowthEnergy ==>
        r == cs[i := Paid(cs[i])] + Sprouts(genome, cs[i], cs, 0))
  {
    var c := cs[i];
    if c.state == Growing {
      TryFromSnapshot(genome, c, cs, [], false, false, 0);
      assert cs + [] == cs;
      var a := TryFrom(genome, c, Attempt(cs, false, false), 0);
      if c.energy >= GrowthEnergy {
        assert a.cells == cs + Sprouts(genome, c, cs, 0);
        UpdateAppend(cs, Sprouts(genome, c, cs, 0), i, a.cells, Paid(c));
      } else {
        assert a.cells == cs && !a.grew;
        assert cs[i := c] == cs;
      }
    }
  }

  /** What one turn leaves: the list grows by at most four fresh Growing cells naming gene
      records, no other cell changes, and the cell whose turn it was stays in place, keeps
      its index, and is unchanged, settled as Grown, or paid for the growth. */
  predicate TurnShape(cs: seq<SCell>, r: seq<SCell>, i: nat)
    requires i < |cs|
  {
    |cs| <= |r| <= |cs| + 4 && AllIndexed(r) &&
    (forall k :: 0 <= k < |cs| && k != i ==> r[k] == cs[k]) &&
    r[i].x == cs[i].x && r[i].y == cs[i].y && r[i].gene == cs[i].gene &&
    (r[i] == cs[i] || r[i] == cs[i].(state := Grown) || (Rich(cs[i]) && r[i] == Paid(cs[i]))) &&
    !Rich(r[i]) &&
    (|r| > |cs| ==> Rich(cs[i])) &&
    (forall k :: |cs| <= k < |r| ==> r[k].state == Growing && r[k].energy == 0)
  }

  /** The shape of a turn: the list only grows, by at most four fresh children; no other
      cell changes; the cell at `i` is left unable to grow again in this pass. */
  lemma GrowCellShape(genome: seq<Gene>, cs: seq<SCell>, i: nat)
    requires ValidGenes(genome) && AllIndexed(cs) && i < |cs|
    ensures TurnShape(cs, GrowCell(genome, cs, i), i)
  {
    var c := cs[i];
    var r := GrowCell(genome, cs, i);
    GrowCellCases(genome, cs, i);
    if c.state == Growing && CanGrow(genome, c, cs) && c.energy >= GrowthEnergy {
      GrowShapeRich(genome, cs, i);
    } else if c.state == Growing && !CanGrow(genome, c, cs) {
      assert r == cs[i := c.(state := Grown)];
    } else {
      assert r == cs;
    }
  }

  /** The turn of a cell that can grow and pay. */
  lemma GrowShapeRich(genome: seq<Gene>, cs: seq<SCell>, i: nat)
    requires ValidGenes(genome) && AllIndexed(cs) && i < |cs|
    requires cs[i].state == Growing && CanGrow(genome, cs[i], cs) && cs[i].energy >= GrowthEnergy
    ensures TurnShape(cs, GrowCell(genome, cs, i), i)
  {
    var c := cs[i];
    GrowCellCases(genome, cs, i);
    var s := Sprouts(genome, c, cs, 0);
    SproutsCount(genome, c, cs, 0);
    SproutsCells(genome, c, cs, 0);
    PaidShape(cs, i, s, GrowCell(genome, cs, i));
  }

  /** A rich cell paid for in place, followed by at most four fresh cells naming gene
      records, is a turn's shape. */
  lemma PaidShape(cs: seq<SCell>, i: nat, s: seq<SCell>, r: seq<SCell>)
    requires AllIndexed(cs) && i < |cs| && Rich(cs[i]) && |s| <= 4 && r == cs[i := Paid(cs[i])] + s
    requires forall k :: 0 <= k < |s| ==> s[k].state == Growing && s[k].energy == 0 && Indexed(s[k])
    ensures TurnShape(cs, r, i)
  {
    forall k | |cs| <= k < |r|
      ensures r[k].state == Growing && r[k].energy == 0 && Indexed(r[k])
    {
      assert r[k] == s[k - |cs|];
    }
    forall k | 0 <= k < |cs|
      ensures Indexed(r[k])
    {
      assert r[k] == cs[i := Paid(cs[i])][k];
    }
  }

  /** Each turn lowers the count of cells left to visit, weighting cells that will
      still grow by the children they may add: `grow_tree`'s loop over a growing list
      ends. */
  lemma GrowCellMeasure(genome: seq<Gene>, cs: seq<SCell>, i: nat)
    requires ValidGenes(genome) && AllIndexed(cs) && i < |cs|
    ensures var r := GrowCell(genome, cs, i);
      |r| - (i + 1) + 4 * RichCount(r[i + 1..]) < |cs| - i + 4 * RichCount(cs[i..])
  {
    var r := GrowCell(genome, cs, i);
    GrowCellShape(genome, cs, i);
    MeasureStep(cs, r, i);
  }

  /** `grow_tree`: every cell of the list, children included, takes one turn in list order. */
  function GrowFrom(genome: seq<Gene>, cs: seq<SCell>, i: nat): (r: seq<SCell>)
    requires ValidGenes(genome) && AllIndexed(cs) && i <= |cs|
    ensures AllIndexed(r) && |r| >= |cs|
    decreases |cs| - i + 4 * RichCount(cs[i..])
  {
    if i == |cs| then cs
    else
      GrowCellShape(genome, cs, i);
      GrowCellMeasure(genome, cs, i);
      GrowFrom(genome, GrowCell(genome, cs, i), i + 1)
  }

  /** What a whole pass does to the cells it started with and to those it adds. */
  lemma {:induction false} GrowFromShape(genome: seq<Gene>, cs: seq<SCell>, i: nat)
    requires ValidGenes(genome) && AllIndexed(cs) && i <= |cs|
    ensures GrowShape(cs, GrowFrom(genome, cs, i), i)
    decreases |cs| - i + 4 * RichCount(cs[i..])
  {
    if i < |cs| {
      var next := GrowCell(genome, cs, i);
      GrowCellShape(genome, cs, i);
      GrowCellMeasure(genome, cs, i);
      GrowFromShape(genome, next, i + 1);
      var r := GrowFrom(genome, next, i + 1);
      assert r == GrowFrom(genome, cs, i);
      GrowShapeStep(cs, next, r, i);
    }
  }

  /** What GrowFromShape states: the list only grows; the cells before `i` are
      untouched; every cell keeps its place and index; Grown cells are untouched; a cell's
      energy changes only by paying 18 for growth, once; appended cells hold no energy. */
  predicate GrowShape(cs: seq<SCell>, r: seq<SCell>, i: nat)
  {
    |cs| <= |r| && i <= |cs| &&
    (forall k :: 0 <= k < i ==> r[k] == cs[k]) &&
    (forall k :: 0 <= k < |cs| ==> r[k].x == cs[k].x && r[k].y == cs[k].y && r[k].gene == cs[k].gene) &&
    (forall k :: 0 <= k < |cs| && cs[k].state == Grown ==> r[k] == cs[k]) &&
    (forall k :: 0 <= k < |cs| ==> r[k].energy == cs[k].energy || (Rich(cs[k]) && r[k] == Paid(cs[k]))) &&
    (forall k :: |cs| <= k < |r| ==> r[k].energy == 0)
  }

  /** The step of GrowFromShape: one turn at `i`, then the rest of the pass. */
  lemma GrowShapeStep(cs: seq<SCell>, next: seq<SCell>, r: seq<SCell>, i: nat)
    requires i < |cs| && TurnShape(cs, next, i) && GrowShape(next, r, i + 1)
    requires cs[i].state == Grown ==> next == cs
    ensures GrowShape(cs, r, i)
  {
  }

  /** However many children a cell grows, it pays once: energy never goes negative. */
  lemma GrowFromNonnegative(genome: seq<Gene>, cs: seq<SCell>)
    requires ValidGenes(genome) && AllIndexed(cs)
    requires forall k :: 0 <= k < |cs| ==> cs[k].energy >= 0
    ensures var r := GrowFrom(genome, cs, 0);
      forall k :: 0 <= k < |r| ==> r[k].energy >= 0
  {
    GrowFromShape(genome, cs, 0);
  }

  /** A turn as a list: the old cells in their squares, then the children, if any. */
  lemma GrowCellSplit(genome: seq<Gene>, cs: seq<SCell>, i: nat)
    requires ValidGenes(genome) && AllIndexed(cs) && i < |cs|
    ensures var r := GrowCell(genome, cs, i);
      |r| >= |cs| && SamePlaces(r[..|cs|], cs) &&
      (r[|cs|..] == [] || r[|cs|..] == Sprouts(genome, cs[i], cs, 0))
  {
    var r := GrowCell(genome, cs, i);
    GrowCellCases(genome, cs, i);
    var c := cs[i];
    if c.state == Growing && CanGrow(genome, c, cs) && c.energy >= GrowthEnergy {
      var s := Sprouts(genome, c, cs, 0);
      assert r[..|cs|] == cs[i := Paid(c)];
      assert r[|cs|..] == s;
      MovedNone(cs, i, Paid(c));
    } else {
      assert r[..|cs|] == r && r[|cs|..] == [];
      if c.state == Growing && !CanGrow(genome, c, cs) {
        MovedNone(cs, i, c.(state := Grown));
      }
    }
  }

  /** One turn keeps the cells on pairwise different squares. */
  lemma GrowCellSpread(genome: seq<Gene>, cs: seq<SCell>, i: nat)
    requires ValidGenes(genome) && AllIndexed(cs) && i < |cs| && Spread(cs)
    ensures Spread(GrowCell(genome, cs, i))
  {
    var r := GrowCell(genome, cs, i);
    GrowCellSplit(genome, cs, i);
    var base, s := r[..|cs|], r[|cs|..];
    assert r == base + s;
    if s != [] {
      SproutsPlaces(genome, cs[i], cs);
    }
    SpreadExtend(cs, base, s);
  }

  /** Cells on the squares of a spread list, followed by spread cells on squares the
      list leaves free, are spread. */
  lemma SpreadExtend(cs: seq<SCell>, base: seq<SCell>, s: seq<SCell>)
    requires Spread(cs) && SamePlaces(base, cs) && Spread(s)
    requires forall k :: 0 <= k < |s| ==> !Taken(PlaceOf(s[k]), cs)
    ensures Spread(base + s)
  {
    forall k | 0 <= k < |s|
      ensures !OccupiedIn(base, s[k].x, s[k].y)
    {
      OccupiedPlaces(base, cs, s[k].x, s[k].y);
    }
    assert Spread(base);
    SpreadAppend(base, s);
  }

  /** One turn keeps the tree inside the grid. */
  lemma GrowCellBounds(genome: seq<Gene>, cs: seq<SCell>, i: nat)
    requires ValidGenes(genome) && AllIndexed(cs) && i < |cs| && AllInBounds(cs)
    ensures AllInBounds(GrowCell(genome, cs, i))
  {
    var r := GrowCell(genome, cs, i);
    GrowCellSplit(genome, cs, i);
    var base, s := r[..|cs|], r[|cs|..];
    if s != [] {
      SproutsPlaces(genome, cs[i], cs);
    }
    forall k | 0 <= k < |r|
      ensures InBounds(r[k].x, r[k].y)
    {
      if k >= |cs| {
        assert r[k] == s[k - |cs|];
      } else {
        assert r[k] == base[k];
      }
    }
  }

  /** A whole pass keeps the cells on pairwise different squares and inside the grid. */
  lemma {:induction false} GrowFromPlaces(genome: seq<Gene>, cs: seq<SCell>, i: nat)
    requires ValidGenes(genome) && AllIndexed(cs) && i <= |cs|
    ensures var r := GrowFrom(genome, cs, i);
      (Spread(cs) ==> Spread(r)) && (AllInBounds(cs) ==> AllInBounds(r))
    decreases |cs| - i + 4 * RichCount(cs[i..])
  {
    if i < |cs| {
      GrowCellShape(genome, cs, i);
      GrowCellMeasure(genome, cs, i);
      if Spread(cs) {
        GrowCellSpread(genome, cs, i);
      }
      if AllInBounds(cs) {
        GrowCellBounds(genome, cs, i);
      }
      GrowFromPlaces(genome, GrowCell(genome, cs, i), i + 1);
    }
  }

  /** Growability sees squares only: cells in the same place with the same index, judged
      against lists with the same squares taken, decide alike. */
  lemma {:induction false} OpenFromPlaces(genome: seq<Gene>, c: SCell, c': SCell, a: seq<SCell>, b: seq<SCell>, d: nat)
    requires ValidGenes(genome) && Indexed(c) && c'.gene == c.gene && c'.x == c.x && c'.y == c.y
    requires SamePlaces(a, b) && d <= 4
    ensures OpenFrom(genome, c, a, d) == OpenFrom(genome, c', b, d)
    decreases 4 - d
  {
    if d < 4 {
      assert Target(c, d) == Target(c', d);
      if Target(c, d).Some? {
        var p := Target(c, d).value;
        OccupiedPlaces(a, b, p.x, p.y);
      }
      OpenFromPlaces(genome, c, c', a, b, d + 1);
    }
  }

  /** A pass over cells none of which can pay for a child only settles maturity: nothing
      moves or is added, and each Growing cell becomes Grown exactly when it has no
      growable direction. */
  lemma {:induction false} GrowFromSettles(genome: seq<Gene>, cs: seq<SCell>, i: nat)
    requires ValidGenes(genome) && AllIndexed(cs) && i <= |cs|
    requires forall k :: i <= k < |cs| ==> cs[k].energy < GrowthEnergy
    ensures var r := GrowFrom(genome, cs, i);
      SamePlaces(r, cs) &&
      forall k :: i <= k < |cs| && cs[k].state == Growing ==>
        (r[k].state == Grown <==> !CanGrow(genome, cs[k], cs))
    decreases |cs| - i
  {
    if i < |cs| {
      var next := GrowCell(genome, cs, i);
      GrowCellShape(genome, cs, i);
      GrowCellMeasure(genome, cs, i);
      assert |next| == |cs|;
      GrowFromSettles(genome, next, i + 1);
      GrowFromShape(genome, next, i + 1);
      var r := GrowFrom(genome, next, i + 1);
      assert r == GrowFrom(genome, cs, i);
      assert SamePlaces(next, cs);
      forall k | i <= k < |cs| && cs[k].state == Growing
        ensures r[k].state == Grown <==> !CanGrow(genome, cs[k], cs)
      {
        if k == i {
          GrowCellCases(genome, cs, i);
          assert r[k] == next[k];
        } else {
          assert next[k] == cs[k];
          OpenFromPlaces(genome, cs[k], next[k], cs, next, 0);
        }
      }
    }
  }

  /** Cells appended during a pass are visited after every cell that could pay for them,
      so they settle against the final list. */
  lemma {:induction false} GrowFromLateCells(genome: seq<Gene>, cs: seq<SCell>, i: nat, n: nat)
    requires ValidGenes(genome) && AllIndexed(cs) && i <= n <= |cs|
    requires forall k :: n <= k < |cs| ==> cs[k].state == Growing && cs[k].energy == 0
    ensures var r := GrowFrom(genome, cs, i);
      forall k :: n <= k < |r| ==> (r[k].state == Grown <==> !CanGrow(genome, r[k], r))
    decreases n - i
  {
    var r := GrowFrom(genome, cs, i);
    if i < n {
      var next := GrowCell(genome, cs, i);
      GrowCellShape(genome, cs, i);
      GrowCellMeasure(genome, cs, i);
      forall k | n <= k < |next|
        ensures next[k].state == Growing && next[k].energy == 0
      {
        if k < |cs| {
          assert next[k] == cs[k];
        }
      }
      GrowFromLateCells(genome, next, i + 1, n);
      assert r == GrowFrom(genome, next, i + 1);
    } else {
      GrowFromSettles(genome, cs, i);
      GrowFromShape(genome, cs, i);
      forall k | n <= k < |r|
        ensures r[k].state == Grown <==> !CanGrow(genome, r[k], r)
      {
        OpenFromPlaces(genome, cs[k], r[k], cs, r, 0);
      }
    }
  }

  /** The children created by `grow_tree` are looked at in the same pass: with no energy
      they never grow, and they are Grown at once exactly when no direction is growable
      for them against the tree as the pass leaves it. */
  lemma GrowChildrenSettle(genome: seq<Gene>, cs: seq<SCell>)
    requires ValidGenes(genome) && AllIndexed(cs)
    ensures var r := GrowFrom(genome, cs, 0);
      forall k :: |cs| <= k < |r| ==>
        r[k].energy == 0 && (r[k].state == Grown <==> !CanGrow(genome, r[k], r))
  {
    GrowFromShape(genome, cs, 0);
    GrowFromLateCells(genome, cs, 0, |cs|);
  }

  // ---------------------------------------------------------------------------
  // `update_cells`

  /** `update_cells`: every cell gains the energy of its light level under the tree's own
      cells above it; positions do not change during the pass, so every cell sees the
      same shading. */
  function Illuminate(cs: seq<SCell>): (r: seq<SCell>)
    ensures |r| == |cs|
  {
    seq(|cs|, k requires 0 <= k < |cs| => Accrue(cs[k], Level(Rows, SunLevel, cs[k].y), CountAbove(cs, cs[k].x, cs[k].y)))
  }

  /** The light pass moves nothing and only ever adds energy: at most 48 (3 times the top
      level 16) to a cell inside the grid, nothing to a cell with three or more cells above
      it, and the full 3 times its level to a cell with nothing above it. */
  lemma IlluminateFacts(cs: seq<SCell>)
    ensures var r := Illuminate(cs);
      SamePlaces(r, cs) &&
      (forall k :: 0 <= k < |cs| ==> r[k].state == cs[k].state && r[k].gene == cs[k].gene) &&
      (forall k :: 0 <= k < |cs| && InBounds(cs[k].x, cs[k].y) ==>
        cs[k].energy <= r[k].energy <= cs[k].energy + ShadeLimit * MaxLevel) &&
      (forall k :: 0 <= k < |cs| && CountAbove(cs, cs[k].x, cs[k].y) >= ShadeLimit ==> r[k] == cs[k]) &&
      (forall k :: 0 <= k < |cs| && CountAbove(cs, cs[k].x, cs[k].y) == 0 ==>
        r[k].energy == cs[k].energy + ShadeLimit * Level(Rows, SunLevel, cs[k].y))
  {
    var r := Illuminate(cs);
    forall k | 0 <= k < |cs| && InBounds(cs[k].x, cs[k].y)
      ensures cs[k].energy <= r[k].energy <= cs[k].energy + ShadeLimit * MaxLevel
    {
      var level := Level(Rows, SunLevel, cs[k].y);
      LevelOnGrid(Rows, SunLevel, cs[k].y);
      assert ShadeLimit * level <= ShadeLimit * MaxLevel;
    }
  }
}
