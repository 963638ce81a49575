/** The rules of main.py's world, as functions of values: where a cell may grow
    (`Tree.grow`), how a pass of growth over a tree's cell list unfolds, the light
    pass of `update_cells`, the falling pass of a dying tree (`fall_cells`) and the
    seeding pass of `check_death`. The world outside the tree being stepped is
    `others`: the cells of every other tree, in world order. */
module PlantRules {
  import opened Wrappers
  import opened Seqs
  import opened Cells
  import opened Genome

  const Width := 1320
  const Height := 540
  const CellSize := 6
  /** Lattice columns (220) and rows (90). */
  const Cols := Width / CellSize
  const Rows := Height / CellSize
  /** The simulation's constant sun level. */
  const SunLevel := 6
  /** Up growth needs `y + 1 > SkyBand`: no tree grows upward into the top rows. */
  const SkyBand := 20

  type PCell = Cell<Gene>

  predicate InBounds(x: int, y: int)
  {
    0 <= x < Cols && 0 <= y < Rows
  }

  predicate AllInBounds(cs: seq<PCell>)
  {
    forall k :: 0 <= k < |cs| ==> InBounds(cs[k].x, cs[k].y)
  }

  /** Every cell carries a gene record. */
  predicate GenesValid(cs: seq<PCell>)
  {
    forall k :: 0 <= k < |cs| ==> ValidGene(cs[k].gene)
  }

  /** A tree's cells never share a square with each other or with another tree's cells. */
  predicate Apart(others: seq<PCell>, cs: seq<PCell>)
  {
    Spread(cs) && forall k :: 0 <= k < |cs| ==> !OccupiedIn(others, cs[k].x, cs[k].y)
  }

  // ---------------------------------------------------------------------------
  // Where a cell may grow

  /** The square direction `d` (0 Up, 1 Left, 2 Right, 3 Down) of cell `c` leads to, if
      the grid allows it: Up only from row SkyBand on and never off the top, Down never
      below the ground row, Left and Right wrapping around the columns. */
  function Target(c: PCell, d: int): (r: Option<Pos>)
    requires 0 <= d < 4
    ensures d == 0 ==> (r.Some? <==> c.y > 0 && c.y >= SkyBand)
    ensures d == 3 ==> (r.Some? <==> c.y < Rows - 1)
    ensures d == 1 || d == 2 ==> r.Some?
  {
    if d == 0 then
      if c.y > 0 && c.y + 1 > SkyBand then Some(Pos(c.x, c.y - 1)) else None
    else if d == 1 then
      if c.x > 0 then Some(Pos(c.x - 1, c.y)) else Some(Pos(Cols - 1, c.y))
    else if d == 2 then
      if c.x < Cols - 1 then Some(Pos(c.x + 1, c.y)) else Some(Pos(0, c.y))
    else
      if c.y < Rows - 1 then Some(Pos(c.x, c.y + 1)) else None
  }

  /** Every target is a neighbour: one row up or down in the same column, or one column
      left or right on a ring of Cols columns in the same row; from inside the grid it
      stays inside the grid. */
  lemma TargetGeometry(c: PCell, d: int)
    requires 0 <= d < 4 && Target(c, d).Some?
    ensures var p := Target(c, d).value;
      (p.x == c.x) != (p.y == c.y) &&
      (p.x == c.x ==> p.y == c.y - 1 || p.y == c.y + 1) &&
      (InBounds(c.x, c.y) ==> InBounds(p.x, p.y)) &&
      (InBounds(c.x, c.y) && p.y == c.y ==> p.x == (c.x + Cols - 1) % Cols || p.x == (c.x + 1) % Cols)
  {
    var p := Target(c, d).value;
    assert Cols == 220 && Rows == 90;
    if InBounds(c.x, c.y) && p.y == c.y {
      if d == 1 {
        if c.x > 0 {
          assert (c.x + Cols - 1) % Cols == c.x - 1;
        } else {
          assert (c.x + Cols - 1) % Cols == Cols - 1;
        }
      } else if d == 2 {
        if c.x < Cols - 1 {
          assert (c.x + 1) % Cols == c.x + 1;
        } else {
          assert (c.x + 1) % Cols == 0;
        }
      }
    }
  }

  /** Two directions never lead to the same square. */
  lemma TargetsDistinct(c: PCell, d: int, d': int)
    requires 0 <= d < 4 && 0 <= d' < 4 && d != d'
    requires Target(c, d).Some? && Target(c, d').Some?
    ensures Target(c, d).value != Target(c, d').value
  {
  }

  /** The square is held by a cell of another tree or of this tree's current list. */
  predicate Taken(p: Pos, others: seq<PCell>, cs: seq<PCell>)
  {
    OccupiedIn(others, p.x, p.y) || OccupiedIn(cs, p.x, p.y)
  }

  /** Direction `d` is growable for `c` against the cells `cs`: the gene does not block
      it, the grid allows it and nobody holds the square. */
  function Opening(c: PCell, others: seq<PCell>, cs: seq<PCell>, d: int): (r: Option<Pos>)
    requires ValidGene(c.gene) && 0 <= d < 4
    ensures r.Some? <==> c.gene[d] != Blocked && Target(c, d).Some? && !Taken(Target(c, d).value, others, cs)
    ensures r.Some? ==> r == Target(c, d)
  {
    if c.gene[d] == Blocked then None
    else
      match Target(c, d)
      case None => None
      case Some(p) => if Taken(p, others, cs) then None else Some(p)
  }

  /** Some direction from `d` on is growable. */
  predicate OpenFrom(c: PCell, others: seq<PCell>, cs: seq<PCell>, d: nat)
    requires ValidGene(c.gene) && d <= 4
    decreases 4 - d
  {
    d < 4 && (Opening(c, others, cs, d).Some? || OpenFrom(c, others, cs, d + 1))
  }

  predicate CanGrow(c: PCell, others: seq<PCell>, cs: seq<PCell>)
    requires ValidGene(c.gene)
  {
    OpenFrom(c, others, cs, 0)
  }

  lemma {:induction false} OpenFromExists(c: PCell, others: seq<PCell>, cs: seq<PCell>, d: nat)
    requires ValidGene(c.gene) && d <= 4
    ensures OpenFrom(c, others, cs, d) <==> exists e :: d <= e < 4 && Opening(c, others, cs, e).Some?
    decreases 4 - d
  {
    if d < 4 {
      OpenFromExists(c, others, cs, d + 1);
    }
  }

  /** `can_grow` in words: some direction is not blocked, allowed by the grid and free. */
  lemma CanGrowMeans(c: PCell, others: seq<PCell>, cs: seq<PCell>)
    requires ValidGene(c.gene)
    ensures CanGrow(c, others, cs) <==>
      exists d :: 0 <= d < 4 && c.gene[d] != Blocked && Target(c, d).Some? &&
        !Taken(Target(c, d).value, others, cs)
  {
    OpenFromExists(c, others, cs, 0);
    if CanGrow(c, others, cs) {
      var d :| 0 <= d < 4 && Opening(c, others, cs, d).Some?;
      assert c.gene[d] != Blocked && Target(c, d).Some? && !Taken(Target(c, d).value, others, cs);
    }
  }

  /** The child direction `d` alone gives, if it is growable. */
  function Here(genome: seq<Gene>, c: PCell, others: seq<PCell>, cs: seq<PCell>, d: nat): seq<PCell>
    requires ValidGenes(genome) && ValidGene(c.gene) && d < 4
  {
    match Opening(c, others, cs, d)
    case None => []
    case Some(p) => [Sprout(p.x, p.y, genome[c.gene[d]])]
  }

  /** The children a cell with enough energy grows from direction `d` on, judged against
      the cells `cs` it sees when its turn comes: one fresh cell in every growable
      direction, carrying the gene record the direction names. */
  function Sprouts(genome: seq<Gene>, c: PCell, others: seq<PCell>, cs: seq<PCell>, d: nat): seq<PCell>
    requires ValidGenes(genome) && ValidGene(c.gene) && d <= 4
    decreases 4 - d
  {
    if d == 4 then [] else Here(genome, c, others, cs, d) + Sprouts(genome, c, others, cs, d + 1)
  }

  /** No cell of `extra` sits on a square that direction `d` or a later one leads to. */
  predicate OffTargets(c: PCell, extra: seq<PCell>, d: nat)
  {
    forall k, e :: 0 <= k < |extra| && d <= e < 4 && Target(c, e).Some? ==> PlaceOf(extra[k]) != Target(c, e).value
  }

  /** There are at most as many children as directions left, and some exactly when some
      direction is growable. */
  lemma {:induction false} SproutsCount(genome: seq<Gene>, c: PCell, others: seq<PCell>, cs: seq<PCell>, d: nat)
    requires ValidGenes(genome) && ValidGene(c.gene) && d <= 4
    ensures |Sprouts(genome, c, others, cs, d)| <= 4 - d
    ensures |Sprouts(genome, c, others, cs, d)| > 0 <==> OpenFrom(c, others, cs, d)
    decreases 4 - d
  {
    if d < 4 {
      SproutsCount(genome, c, others, cs, d + 1);
    }
  }

  /** `n` is the child `c` grows in some direction from `d` on. */
  predicate GrownFrom(genome: seq<Gene>, c: PCell, others: seq<PCell>, cs: seq<PCell>, n: PCell, d: nat)
    requires ValidGenes(genome) && ValidGene(c.gene)
  {
    exists e :: d <= e < 4 && Opening(c, others, cs, e) == Some(PlaceOf(n)) && n.gene == genome[c.gene[e]]
  }

  /** Every child is fresh and growing, carries one of the genome's gene records, sits on
      a square of a growable direction from `d` on, and so on a free square that is not a
      target of any earlier direction. */
  lemma {:induction false} SproutsCells(genome: seq<Gene>, c: PCell, others: seq<PCell>, cs: seq<PCell>, d: nat)
    requires ValidGenes(genome) && ValidGene(c.gene) && d <= 4
    ensures var s := Sprouts(genome, c, others, cs, d);
      forall k :: 0 <= k < |s| ==>
        s[k].state == Growing && s[k].energy == 0 && ValidGene(s[k].gene) &&
        GrownFrom(genome, c, others, cs, s[k], d)
    decreases 4 - d
  {
    if d < 4 {
      var rest := Sprouts(genome, c, others, cs, d + 1);
      SproutsCells(genome, c, others, cs, d + 1);
      var h := Here(genome, c, others, cs, d);
      var s := Sprouts(genome, c, others, cs, d);
      assert s == h + rest;
      forall k | 0 <= k < |s|
        ensures s[k].state == Growing && s[k].energy == 0 && ValidGene(s[k].gene) &&
          GrownFrom(genome, c, others, cs, s[k], d)
      {
        if k < |h| {
          assert s[k] == h[0];
          assert Opening(c, others, cs, d) == Some(PlaceOf(s[k])) && s[k].gene == genome[c.gene[d]];
        } else {
          assert s[k] == rest[k - |h|];
          assert GrownFrom(genome, c, others, cs, rest[k - |h|], d + 1);
          var e :| d + 1 <= e < 4 && Opening(c, others, cs, e) == Some(PlaceOf(rest[k - |h|])) &&
            rest[k - |h|].gene == genome[c.gene[e]];
        }
      }
    }
  }

  /** Children stand on pairwise different squares, free of other trees and of the list
      they were judged against, inside the grid when their parent is. */
  lemma SproutsPlaces(genome: seq<Gene>, c: PCell, others: seq<PCell>, cs: seq<PCell>)
    requires ValidGenes(genome) && ValidGene(c.gene)
    ensures var s := Sprouts(genome, c, others, cs, 0);
      Spread(s) && GenesValid(s) &&
      (forall k :: 0 <= k < |s| ==> !Taken(PlaceOf(s[k]), others, cs)) &&
      (InBounds(c.x, c.y) ==> AllInBounds(s))
  {
    SproutsFree(genome, c, others, cs);
    SproutsSpread(genome, c, others, cs);
  }

  lemma SproutsFree(genome: seq<Gene>, c: PCell, others: seq<PCell>, cs: seq<PCell>)
    requires ValidGenes(genome) && ValidGene(c.gene)
    ensures var s := Sprouts(genome, c, others, cs, 0);
      GenesValid(s) &&
      (forall k :: 0 <= k < |s| ==> !Taken(PlaceOf(s[k]), others, cs)) &&
      (InBounds(c.x, c.y) ==> AllInBounds(s))
  {
    var s := Sprouts(genome, c, others, cs, 0);
    SproutsCells(genome, c, others, cs, 0);
    forall k | 0 <= k < |s|
      ensures !Taken(PlaceOf(s[k]), others, cs) && (InBounds(c.x, c.y) ==> InBounds(s[k].x, s[k].y))
    {
      GrownFree(genome, c, others, cs, s[k]);
    }
  }

  /** A child stands on a free square, inside the grid from inside the grid. */
  lemma GrownFree(genome: seq<Gene>, c: PCell, others: seq<PCell>, cs: seq<PCell>, n: PCell)
    requires ValidGenes(genome) && ValidGene(c.gene) && GrownFrom(genome, c, others, cs, n, 0)
    ensures !Taken(PlaceOf(n), others, cs) && (InBounds(c.x, c.y) ==> InBounds(n.x, n.y))
  {
    var e :| 0 <= e < 4 && Opening(c, others, cs, e) == Some(PlaceOf(n)) && n.gene == genome[c.gene[e]];
    OpeningFree(c, others, cs, e);
  }

  /** A growable direction leads to a free square, inside the grid from inside the grid. */
  lemma OpeningFree(c: PCell, others: seq<PCell>, cs: seq<PCell>, e: int)
    requires ValidGene(c.gene) && 0 <= e < 4 && Opening(c, others, cs, e).Some?
    ensures var p := Opening(c, others, cs, e).value;
      !Taken(p, others, cs) && (InBounds(c.x, c.y) ==> InBounds(p.x, p.y))
  {
    TargetGeometry(c, e);
  }

  lemma SproutsSpread(genome: seq<Gene>, c: PCell, others: seq<PCell>, cs: seq<PCell>)
    requires ValidGenes(genome) && ValidGene(c.gene)
    ensures Spread(Sprouts(genome, c, others, cs, 0))
  {
    var s := Sprouts(genome, c, others, cs, 0);
    forall j, k | 0 <= j < k < |s|
      ensures s[j].x != s[k].x || s[j].y != s[k].y
    {
      SproutsOrder(genome, c, others, cs, 0, j, k);
    }
  }

  /** Children come in direction order: a later child comes from a later direction. */
  lemma {:induction false} SproutsOrder(genome: seq<Gene>, c: PCell, others: seq<PCell>, cs: seq<PCell>, d: nat, j: nat, k: nat)
    requires ValidGenes(genome) && ValidGene(c.gene) && d <= 4
    requires j < k < |Sprouts(genome, c, others, cs, d)|
    ensures PlaceOf(Sprouts(genome, c, others, cs, d)[j]) != PlaceOf(Sprouts(genome, c, others, cs, d)[k])
    decreases 4 - d, 1
  {
    if Opening(c, others, cs, d).None? {
      SproutsOrderSkip(genome, c, others, cs, d, j, k);
    } else if j == 0 {
      SproutsOrderHead(genome, c, others, cs, d, Opening(c, others, cs, d).value, k);
    } else {
      SproutsOrderTail(genome, c, others, cs, d, j, k);
    }
  }

  /** A direction that is not growable adds no child. */
  lemma {:induction false} SproutsOrderSkip(genome: seq<Gene>, c: PCell, others: seq<PCell>, cs: seq<PCell>,
                                            d: nat, j: nat, k: nat)
    requires ValidGenes(genome) && ValidGene(c.gene) && d < 4 && Opening(c, others, cs, d).None?
    requires j < k < |Sprouts(genome, c, others, cs, d)|
    ensures PlaceOf(Sprouts(genome, c, others, cs, d)[j]) != PlaceOf(Sprouts(genome, c, others, cs, d)[k])
    decreases 4 - d, 0
  {
    SproutsUnfold(genome, c, others, cs, d);
    SproutsOrder(genome, c, others, cs, d + 1, j, k);
  }

  /** Two children after the first of a growable direction are the later directions'. */
  lemma {:induction false} SproutsOrderTail(genome: seq<Gene>, c: PCell, others: seq<PCell>, cs: seq<PCell>,
                                            d: nat, j: nat, k: nat)
    requires ValidGenes(genome) && ValidGene(c.gene) && d < 4 && Opening(c, others, cs, d).Some?
    requires 0 < j < k < |Sprouts(genome, c, others, cs, d)|
    ensures PlaceOf(Sprouts(genome, c, others, cs, d)[j]) != PlaceOf(Sprouts(genome, c, others, cs, d)[k])
    decreases 4 - d, 0
  {
    SproutsUnfold(genome, c, others, cs, d);
    var rest := Sprouts(genome, c, others, cs, d + 1);
    var s := Sprouts(genome, c, others, cs, d);
    var o := Opening(c, others, cs, d).value;
    ConsShift(s, Sprout(o.x, o.y, genome[c.gene[d]]), rest, j);
    ConsShift(s, Sprout(o.x, o.y, genome[c.gene[d]]), rest, k);
    SproutsOrder(genome, c, others, cs, d + 1, j - 1, k - 1);
  }

  /** One direction of Sprouts: nothing when it is not growable, else its child first. */
  lemma SproutsUnfold(genome: seq<Gene>, c: PCell, others: seq<PCell>, cs: seq<PCell>, d: nat)
    requires ValidGenes(genome) && ValidGene(c.gene) && d < 4
    ensures var o := Opening(c, others, cs, d);
      (o.None? ==> Sprouts(genome, c, others, cs, d) == Sprouts(genome, c, others, cs, d + 1)) &&
      (o.Some? ==>
         Sprouts(genome, c, others, cs, d) ==
         [Sprout(o.value.x, o.value.y, genome[c.gene[d]])] + Sprouts(genome, c, others, cs, d + 1))
  {
    var rest := Sprouts(genome, c, others, cs, d + 1);
    assert Sprouts(genome, c, others, cs, d) == Here(genome, c, others, cs, d) + rest;
    if Opening(c, others, cs, d).None? {
      assert Here(genome, c, others, cs, d) + rest == rest;
    }
  }

  /** The child of direction `d` sits apart from every later child. */
  lemma SproutsOrderHead(genome: seq<Gene>, c: PCell, others: seq<PCell>, cs: seq<PCell>, d: nat, p: Pos, k: nat)
    requires ValidGenes(genome) && ValidGene(c.gene) && d < 4 && Opening(c, others, cs, d) == Some(p)
    requires 0 < k < |Sprouts(genome, c, others, cs, d)|
    ensures PlaceOf(Sprouts(genome, c, others, cs, d)[0]) != PlaceOf(Sprouts(genome, c, others, cs, d)[k])
  {
    var rest := Sprouts(genome, c, others, cs, d + 1);
    var s := Sprouts(genome, c, others, cs, d);
    assert s == [Sprout(p.x, p.y, genome[c.gene[d]])] + rest;
    SproutsCells(genome, c, others, cs, d + 1);
    assert s[k] == rest[k - 1] && PlaceOf(s[0]) == p;
    var e :| d + 1 <= e < 4 && Opening(c, others, cs, e) == Some(PlaceOf(rest[k - 1])) &&
      rest[k - 1].gene == genome[c.gene[e]];
    TargetsDistinct(c, d, e);
  }

  // ---------------------------------------------------------------------------
  // One cell's turn in `grow`

  /** The progress of one cell's turn: the tree's cell list so far and the two flags. */
  datatype Attempt = Attempt(cells: seq<PCell>, canGrow: bool, grew: bool)

  /** Direction `d` of the loop over the four directions, as the source runs it: a
      growable direction sets `can_grow`, and with enough energy appends a child to the
      list right away, so later directions see it. */
  function TryStep(genome: seq<Gene>, others: seq<PCell>, c: PCell, a: Attempt, d: nat): Attempt
    requires ValidGenes(genome) && ValidGene(c.gene) && d < 4
  {
    if c.gene[d] == Blocked then a
    else
      match Target(c, d)
      case None => a
      case Some(p) =>
        if Taken(p, others, a.cells) then a
        else if c.energy >= GrowthEnergy then
          Attempt(a.cells + [Sprout(p.x, p.y, genome[c.gene[d]])], true, true)
        else a.(canGrow := true)
  }

  /** A direction only ever appends to the list. */
  lemma TryStepExtends(genome: seq<Gene>, others: seq<PCell>, c: PCell, a: Attempt, d: nat)
    requires ValidGenes(genome) && ValidGene(c.gene) && d < 4
    ensures var r := TryStep(genome, others, c, a, d).cells;
      |r| >= |a.cells| && forall j :: 0 <= j < |a.cells| ==> r[j] == a.cells[j]
  {
  }

  /** The loop over directions `d` to 3. */
  function TryFrom(genome: seq<Gene>, others: seq<PCell>, c: PCell, a: Attempt, d: nat): Attempt
    requires ValidGenes(genome) && ValidGene(c.gene) && d <= 4
    decreases 4 - d
  {
    if d == 4 then a else TryFrom(genome, others, c, TryStep(genome, others, c, a, d), d + 1)
  }

  lemma TakenExtra(p: Pos, others: seq<PCell>, cs: seq<PCell>, extra: seq<PCell>)
    requires forall k :: 0 <= k < |extra| ==> PlaceOf(extra[k]) != p
    ensures Taken(p, others, cs + extra) <==> Taken(p, others, cs)
  {
    OccupiedAppend(cs, extra, p.x, p.y);
    assert !OccupiedIn(extra, p.x, p.y) by {
      forall k | 0 <= k < |extra|
        ensures !(extra[k].x == p.x && extra[k].y == p.y)
      {
        assert PlaceOf(extra[k]) != p;
      }
    }
  }

  /** One direction judged against the list with earlier children appended decides as it
      would against the list at the start of the turn. */
  lemma TryStepSnapshot(genome: seq<Gene>, others: seq<PCell>, c: PCell, cs: seq<PCell>,
                        extra: seq<PCell>, cg: bool, gr: bool, d: nat)
    requires ValidGenes(genome) && ValidGene(c.gene) && d < 4
    requires OffTargets(c, extra, d)
    ensures var open := Opening(c, others, cs, d).Some?;
      var rich := c.energy >= GrowthEnergy;
      TryStep(genome, others, c, Attempt(cs + extra, cg, gr), d) ==
        Attempt(cs + extra + (if rich then Here(genome, c, others, cs, d) else []), cg || open, gr || (rich && open))
  {
    if c.gene[d] != Blocked && Target(c, d).Some? {
      var p := Target(c, d).value;
      assert forall k :: 0 <= k < |extra| ==> PlaceOf(extra[k]) != p;
      TakenExtra(p, others, cs, extra);
    }
  }

  /** A child of direction `d` is off the squares of every later direction. */
  lemma HereOffTargets(genome: seq<Gene>, c: PCell, others: seq<PCell>, cs: seq<PCell>, extra: seq<PCell>, d: nat)
    requires ValidGenes(genome) && ValidGene(c.gene) && d < 4
    requires OffTargets(c, extra, d)
    ensures OffTargets(c, extra + Here(genome, c, others, cs, d), d + 1)
  {
    var h := Here(genome, c, others, cs, d);
    var e' := extra + h;
    forall k, e | 0 <= k < |e'| && d + 1 <= e < 4 && Target(c, e).Some?
      ensures PlaceOf(e'[k]) != Target(c, e).value
    {
      if k < |extra| {
        assert e'[k] == extra[k];
      } else {
        assert e'[k] == h[k - |extra|];
        TargetsDistinct(c, d, e);
      }
    }
  }

  /** The children appended during the turn never block a later direction, because every
      direction leads elsewhere: so the sequential loop does exactly what judging all four
      directions against the list at the start of the turn does. */
  lemma {:induction false} TryFromSnapshot(genome: seq<Gene>, others: seq<PCell>, c: PCell, cs: seq<PCell>,
                                           extra: seq<PCell>, cg: bool, gr: bool, d: nat)
    requires ValidGenes(genome) && ValidGene(c.gene) && d <= 4
    requires OffTargets(c, extra, d)
    ensures TryFrom(genome, others, c, Attempt(cs + extra, cg, gr), d) ==
      Attempt(cs + extra + (if c.energy >= GrowthEnergy then Sprouts(genome, c, others, cs, d) else []),
              cg || OpenFrom(c, others, cs, d),
              gr || (c.energy >= GrowthEnergy && OpenFrom(c, others, cs, d)))
    decreases 4 - d
  {
    if d == 4 {
      assert cs + extra + [] == cs + extra;
    } else {
      var open := Opening(c, others, cs, d).Some?;
      if c.energy >= GrowthEnergy {
        var h := Here(genome, c, others, cs, d);
        HereOffTargets(genome, c, others, cs, extra, d);
        TryFromSnapshot(genome, others, c, cs, extra + h, cg || open, gr || open, d + 1);
        SnapshotRich(genome, others, c, cs, extra, cg, gr, d);
      } else {
        TryFromSnapshot(genome, others, c, cs, extra, cg || open, gr, d + 1);
        SnapshotPoor(genome, others, c, cs, extra, cg, gr, d);
      }
    }
  }

  /** The step of the proof above for a cell that can pay: direction `d` judged on the
      snapshot, then the rest of the loop as the induction hypothesis describes it. */
  lemma SnapshotRich(genome: seq<Gene>, others: seq<PCell>, c: PCell, cs: seq<PCell>,
                     extra: seq<PCell>, cg: bool, gr: bool, d: nat)
    requires ValidGenes(genome) && ValidGene(c.gene) && d < 4 && c.energy >= GrowthEnergy
    requires OffTargets(c, extra, d)
    requires var open := Opening(c, others, cs, d).Some?;
      var h := Here(genome, c, others, cs, d);
      TryFrom(genome, others, c, Attempt(cs + (extra + h), cg || open, gr || open), d + 1) ==
        Attempt(cs + (extra + h) + Sprouts(genome, c, others, cs, d + 1),
                cg || open || OpenFrom(c, others, cs, d + 1), gr || open || OpenFrom(c, others, cs, d + 1))
    ensures TryFrom(genome, others, c, Attempt(cs + extra, cg, gr), d) ==
      Attempt(cs + extra + Sprouts(genome, c, others, cs, d),
              cg || OpenFrom(c, others, cs, d), gr || OpenFrom(c, others, cs, d))
  {
    var open := Opening(c, others, cs, d).Some?;
    var h := Here(genome, c, others, cs, d);
    var rest := Sprouts(genome, c, others, cs, d + 1);
    var a := Attempt(cs + extra, cg, gr);
    TryStepSnapshot(genome, others, c, cs, extra, cg, gr, d);
    assert cs + extra + h == cs + (extra + h);
    assert TryStep(genome, others, c, a, d) == Attempt(cs + (extra + h), cg || open, gr || open);
    assert TryFrom(genome, others, c, a, d) == TryFrom(genome, others, c, TryStep(genome, others, c, a, d), d + 1);
    assert Sprouts(genome, c, others, cs, d) == h + rest;
    assert OpenFrom(c, others, cs, d) == (open || OpenFrom(c, others, cs, d + 1));
    AppendRegroup(cs, extra, h, rest);
  }

  /** The same step for a cell that cannot pay: nothing is appended. */
  lemma SnapshotPoor(genome: seq<Gene>, others: seq<PCell>, c: PCell, cs: seq<PCell>,
                     extra: seq<PCell>, cg: bool, gr: bool, d: nat)
    requires ValidGenes(genome) && ValidGene(c.gene) && d < 4 && c.energy < GrowthEnergy
    requires OffTargets(c, extra, d)
    requires var open := Opening(c, others, cs, d).Some?;
      TryFrom(genome, others, c, Attempt(cs + extra, cg || open, gr), d + 1) ==
        Attempt(cs + extra, cg || open || OpenFrom(c, others, cs, d + 1), gr)
    ensures TryFrom(genome, others, c, Attempt(cs + extra, cg, gr), d) ==
      Attempt(cs + extra, cg || OpenFrom(c, others, cs, d), gr)
  {
    TryStepSnapshot(genome, others, c, cs, extra, cg, gr, d);
    assert cs + extra + [] == cs + extra;
  }

  /** One turn of `grow` for the cell at index `i`: the loop over the four directions
      from the list as it stands, then the payment and the settling of the cell. */
  function GrowCell(genome: seq<Gene>, others: seq<PCell>, cs: seq<PCell>, i: nat): (r: seq<PCell>)
    requires ValidGenes(genome) && GenesValid(cs) && i < |cs|
    ensures cs[i].state == Grown ==> r == cs
  {
    var c := cs[i];
    if c.state != Growing then cs
    else
      var a := TryFrom(genome, others, c, Attempt(cs, false, false), 0);
      var grown := if a.grew then c.(energy := c.energy - GrowthEnergy, state := Grown) else c;
      var settled := if !a.canGrow then grown.(state := Grown) else grown;
      a.cells[i := settled]
  }

  /** What one turn does, case by case: a Grown cell is skipped; a Growing cell with no
      growable direction becomes Grown; one with a growable direction but less than 18
      energy stays as it is; otherwise it pays 18 once, becomes Grown, and a child is
      appended on every growable square. */
  lemma GrowCellCases(genome: seq<Gene>, others: seq<PCell>, cs: seq<PCell>, i: nat)
    requires ValidGenes(genome) && GenesValid(cs) && i < |cs|
    ensures var r := GrowCell(genome, others, cs, i);
      (cs[i].state == Grown ==> r == cs) &&
      (cs[i].state == Growing && !CanGrow(cs[i], others, cs) ==> r == cs[i := cs[i].(state := Grown)]) &&
      (cs[i].state == Growing && CanGrow(cs[i], others, cs) && cs[i].energy < GrowthEnergy ==> r == cs) &&
      (cs[i].state == Growing && CanGrow(cs[i], others, cs) && cs[i].energy >= GrowthEnergy ==>
        r == cs[i := Paid(cs[i])] + Sprouts(genome, cs[i], others, cs, 0))
  {
    var c := cs[i];
    if c.state == Growing {
      TryFromSnapshot(genome, others, c, cs, [], false, false, 0);
      assert cs + [] == cs;
      var a := TryFrom(genome, others, c, Attempt(cs, false, false), 0);
      if c.energy >= GrowthEnergy {
        assert a.cells == cs + Sprouts(genome, c, others, cs, 0);
        UpdateAppend(cs, Sprouts(genome, c, others, cs, 0), i, a.cells, Paid(c));
      } else {
        assert a.cells == cs && !a.grew;
        assert cs[i := c] == cs;
      }
    }
  }

  /** The shape of a turn: the list only grows, by at most four fresh children; no other
      cell changes; the cell at `i` is left unable to grow again in this pass. */
  lemma GrowCellShape(genome: seq<Gene>, others: seq<PCell>, cs: seq<PCell>, i: nat)
    requires ValidGenes(genome) && GenesValid(cs) && i < |cs|
    ensures TurnShape(cs, GrowCell(genome, others, cs, i), i)
  {
    var c := cs[i];
    var r := GrowCell(genome, others, cs, i);
    GrowCellCases(genome, others, cs, i);
    if c.state == Growing && CanGrow(c, others, cs) && c.energy >= GrowthEnergy {
      GrowShapeRich(genome, others, cs, i);
    } else if c.state == Growing && !CanGrow(c, others, cs) {
      assert r == cs[i := c.(state := Grown)];
    } else {
      assert r == cs;
    }
  }

  /** What one turn leaves: the list grows by at most four fresh Growing cells with well
      formed genes, no other cell changes, and the cell whose turn it was stays in place,
      keeps its gene, and is unchanged, settled as Grown, or paid for the growth. */
  predicate TurnShape(cs: seq<PCell>, r: seq<PCell>, i: nat)
    requires i < |cs|
  {
    |cs| <= |r| <= |cs| + 4 && GenesValid(r) &&
    (forall k :: 0 <= k < |cs| && k != i ==> r[k] == cs[k]) &&
    r[i].x == cs[i].x && r[i].y == cs[i].y && r[i].gene == cs[i].gene &&
    (r[i] == cs[i] || r[i] == cs[i].(state := Grown) || (Rich(cs[i]) && r[i] == Paid(cs[i]))) &&
    !Rich(r[i]) &&
    (|r| > |cs| ==> Rich(cs[i])) &&
    (forall k :: |cs| <= k < |r| ==> r[k].state == Growing && r[k].energy == 0)
  }

  /** The turn of a cell that can grow and pay. */
  lemma GrowShapeRich(genome: seq<Gene>, others: seq<PCell>, cs: seq<PCell>, i: nat)
    requires ValidGenes(genome) && GenesValid(cs) && i < |cs|
    requires cs[i].state == Growing && CanGrow(cs[i], others, cs) && cs[i].energy >= GrowthEnergy
    ensures TurnShape(cs, GrowCell(genome, others, cs, i), i)
  {
    var c := cs[i];
    var r := GrowCell(genome, others, cs, i);
    GrowCellCases(genome, others, cs, i);
    var s := Sprouts(genome, c, others, cs, 0);
    SproutsCount(genome, c, others, cs, 0);
    SproutsCells(genome, c, others, cs, 0);
    assert r == cs[i := Paid(c)] + s;
    forall k | |cs| <= k < |r|
      ensures r[k].state == Growing && r[k].energy == 0 && ValidGene(r[k].gene)
    {
      assert r[k] == s[k - |cs|];
    }
    forall k | 0 <= k < |cs|
      ensures ValidGene(r[k].gene)
    {
      assert r[k] == cs[i := Paid(c)][k];
    }
  }

  /** Each turn lowers the count of cells left to visit, weighting cells that will
      still grow by the children they may add. */
  lemma GrowCellMeasure(genome: seq<Gene>, others: seq<PCell>, cs: seq<PCell>, i: nat)
    requires ValidGenes(genome) && GenesValid(cs) && i < |cs|
    ensures var r := GrowCell(genome, others, cs, i);
      |r| - (i + 1) + 4 * RichCount(r[i + 1..]) < |cs| - i + 4 * RichCount(cs[i..])
  {
    var r := GrowCell(genome, others, cs, i);
    GrowCellShape(genome, others, cs, i);
    MeasureStep(cs, r, i);
  }

  /** `grow`: every cell of the list, children included, takes one turn in list order. */
  function GrowFrom(genome: seq<Gene>, others: seq<PCell>, cs: seq<PCell>, i: nat): (r: seq<PCell>)
    requires ValidGenes(genome) && GenesValid(cs) && i <= |cs|
    ensures GenesValid(r) && |r| >= |cs|
    decreases |cs| - i + 4 * RichCount(cs[i..])
  {
    if i == |cs| then cs
    else
      GrowCellShape(genome, others, cs, i);
      GrowCellMeasure(genome, others, cs, i);
      GrowFrom(genome, others, GrowCell(genome, others, cs, i), i + 1)
  }

  /** What a whole pass does to the cells it started with and to those it adds: cells keep
      their square and gene record; Grown cells are untouched; a Growing cell either keeps
      its energy or, having held at least 18, pays exactly 18 once and is Grown; every
      added cell holds no energy. Cells before `i` have had their turn already. */
  lemma {:induction false} GrowFromShape(genome: seq<Gene>, others: seq<PCell>, cs: seq<PCell>, i: nat)
    requires ValidGenes(genome) && GenesValid(cs) && i <= |cs|
    ensures GrowShape(cs, GrowFrom(genome, others, cs, i), i)
    decreases |cs| - i + 4 * RichCount(cs[i..])
  {
    if i < |cs| {
      var next := GrowCell(genome, others, cs, i);
      GrowCellShape(genome, others, cs, i);
      GrowCellMeasure(genome, others, cs, i);
      GrowFromShape(genome, others, next, i + 1);
      var r := GrowFrom(genome, others, next, i + 1);
      assert r == GrowFrom(genome, others, cs, i);
      GrowShapeStep(cs, next, r, i);
    }
  }

  /** What GrowFromShape states: the list only grows; the cells before `i` are
      untouched; every cell keeps its place and gene; Grown cells are untouched; a cell's
      energy changes only by paying for growth; appended cells hold no energy. */
  predicate GrowShape(cs: seq<PCell>, r: seq<PCell>, i: nat)
  {
    |cs| <= |r| && i <= |cs| &&
    (forall k :: 0 <= k < i ==> r[k] == cs[k]) &&
    (forall k :: 0 <= k < |cs| ==> r[k].x == cs[k].x && r[k].y == cs[k].y && r[k].gene == cs[k].gene) &&
    (forall k :: 0 <= k < |cs| && cs[k].state == Grown ==> r[k] == cs[k]) &&
    (forall k :: 0 <= k < |cs| ==> r[k].energy == cs[k].energy || (Rich(cs[k]) && r[k] == Paid(cs[k]))) &&
    (forall k :: |cs| <= k < |r| ==> r[k].energy == 0)
  }

  /** The step of GrowFromShape: one turn at `i`, then the rest of the pass. */
  lemma GrowShapeStep(cs: seq<PCell>, next: seq<PCell>, r: seq<PCell>, i: nat)
    requires i < |cs| && TurnShape(cs, next, i) && GrowShape(next, r, i + 1)
    requires cs[i].state == Grown ==> next == cs
    ensures GrowShape(cs, r, i)
  {
  }

  /** However many children a cell grows, it pays once: energy never goes negative. */
  lemma GrowFromNonnegative(genome: seq<Gene>, others: seq<PCell>, cs: seq<PCell>)
    requires ValidGenes(genome) && GenesValid(cs)
    requires forall k :: 0 <= k < |cs| ==> cs[k].energy >= 0
    ensures var r := GrowFrom(genome, others, cs, 0);
      forall k :: 0 <= k < |r| ==> r[k].energy >= 0
  {
    GrowFromShape(genome, others, cs, 0);
  }

  /** Appending cells on free squares, pairwise apart, to a tree kept apart keeps it apart. */
  lemma AppendApart(others: seq<PCell>, cs: seq<PCell>, base: seq<PCell>, s: seq<PCell>)
    requires Apart(others, cs) && SamePlaces(base, cs) && Spread(s)
    requires forall k :: 0 <= k < |s| ==> !Taken(PlaceOf(s[k]), others, cs)
    ensures Apart(others, base + s)
  {
    forall k | 0 <= k < |s|
      ensures !OccupiedIn(base, s[k].x, s[k].y)
    {
      OccupiedPlaces(base, cs, s[k].x, s[k].y);
    }
    assert Spread(base);
    SpreadAppend(base, s);
    var r := base + s;
    forall k | 0 <= k < |r|
      ensures !OccupiedIn(others, r[k].x, r[k].y)
    {
      if k >= |base| {
        assert r[k] == s[k - |base|];
      } else {
        assert r[k].x == cs[k].x && r[k].y == cs[k].y;
      }
    }
  }

  /** A turn as a list: the old cells in their squares, then the children, if any. */
  lemma GrowCellSplit(genome: seq<Gene>, others: seq<PCell>, cs: seq<PCell>, i: nat)
    requires ValidGenes(genome) && GenesValid(cs) && i < |cs|
    ensures var r := GrowCell(genome, others, cs, i);
      |r| >= |cs| && SamePlaces(r[..|cs|], cs) &&
      (r[|cs|..] == [] || r[|cs|..] == Sprouts(genome, cs[i], others, cs, 0))
  {
    var r := GrowCell(genome, others, cs, i);
    GrowCellCases(genome, others, cs, i);
    var c := cs[i];
    if c.state == Growing && CanGrow(c, others, cs) && c.energy >= GrowthEnergy {
      var s := Sprouts(genome, c, others, cs, 0);
      assert r[..|cs|] == cs[i := Paid(c)];
      assert r[|cs|..] == s;
      MovedNone(cs, i, Paid(c));
    } else {
      assert r[..|cs|] == r && r[|cs|..] == [];
      if c.state == Growing && !CanGrow(c, others, cs) {
        MovedNone(cs, i, c.(state := Grown));
      }
    }
  }

  /** One turn keeps the tree apart from the world. */
  lemma GrowCellApart(genome: seq<Gene>, others: seq<PCell>, cs: seq<PCell>, i: nat)
    requires ValidGenes(genome) && GenesValid(cs) && i < |cs|
    requires Apart(others, cs)
    ensures Apart(others, GrowCell(genome, others, cs, i))
  {
    var r := GrowCell(genome, others, cs, i);
    GrowCellSplit(genome, others, cs, i);
    var base, s := r[..|cs|], r[|cs|..];
    assert r == base + s;
    if s != [] {
      SproutsPlaces(genome, cs[i], others, cs);
    }
    AppendApart(others, cs, base, s);
  }

  /** One turn keeps the tree inside the grid. */
  lemma GrowCellBounds(genome: seq<Gene>, others: seq<PCell>, cs: seq<PCell>, i: nat)
    requires ValidGenes(genome) && GenesValid(cs) && i < |cs|
    requires AllInBounds(cs)
    ensures AllInBounds(GrowCell(genome, others, cs, i))
  {
    var r := GrowCell(genome, others, cs, i);
    GrowCellSplit(genome, others, cs, i);
    var base, s := r[..|cs|], r[|cs|..];
    if s != [] {
      SproutsPlaces(genome, cs[i], others, cs);
    }
    forall k | 0 <= k < |r|
      ensures InBounds(r[k].x, r[k].y)
    {
      if k >= |cs| {
        assert r[k] == s[k - |cs|];
      } else {
        assert r[k] == base[k];
      }
    }
  }

  /** A whole pass keeps the tree apart from the world and inside the grid. */
  lemma {:induction false} GrowFromApart(genome: seq<Gene>, others: seq<PCell>, cs: seq<PCell>, i: nat)
    requires ValidGenes(genome) && GenesValid(cs) && i <= |cs|
    ensures var r := GrowFrom(genome, others, cs, i);
      (Apart(others, cs) ==> Apart(others, r)) && (AllInBounds(cs) ==> AllInBounds(r))
    decreases |cs| - i + 4 * RichCount(cs[i..])
  {
    if i < |cs| {
      GrowCellShape(genome, others, cs, i);
      GrowCellMeasure(genome, others, cs, i);
      if Apart(others, cs) {
        GrowCellApart(genome, others, cs, i);
      }
      if AllInBounds(cs) {
        GrowCellBounds(genome, others, cs, i);
      }
      GrowFromApart(genome, others, GrowCell(genome, others, cs, i), i + 1);
    }
  }

  /** Growability sees squares only: cells in the same place with the same gene record,
      judged against lists with the same squares taken, decide alike. */
  lemma {:induction false} OpenFromPlaces(c: PCell, c': PCell, others: seq<PCell>, a: seq<PCell>, b: seq<PCell>, d: nat)
    requires ValidGene(c.gene) && c'.gene == c.gene && c'.x == c.x && c'.y == c.y
    requires SamePlaces(a, b) && d <= 4
    ensures OpenFrom(c, others, a, d) == OpenFrom(c', others, b, d)
    decreases 4 - d
  {
    if d < 4 {
      assert Target(c, d) == Target(c', d);
      if Target(c, d).Some? {
        var p := Target(c, d).value;
        OccupiedPlaces(a, b, p.x, p.y);
      }
      OpenFromPlaces(c, c', others, a, b, d + 1);
    }
  }

  /** A pass over cells none of which can pay for a child only settles maturity: nothing
      moves or is added, and each Growing cell becomes Grown exactly when it has no
      growable direction. */
  lemma {:induction false} GrowFromSettles(genome: seq<Gene>, others: seq<PCell>, cs: seq<PCell>, i: nat)
    requires ValidGenes(genome) && GenesValid(cs) && i <= |cs|
    requires forall k :: i <= k < |cs| ==> cs[k].energy < GrowthEnergy
    ensures var r := GrowFrom(genome, others, cs, i);
      SamePlaces(r, cs) &&
      forall k :: i <= k < |cs| && cs[k].state == Growing ==>
        (r[k].state == Grown <==> !CanGrow(cs[k], others, cs))
    decreases |cs| - i
  {
    if i < |cs| {
      var next := GrowCell(genome, others, cs, i);
      GrowCellShape(genome, others, cs, i);
      GrowCellMeasure(genome, others, cs, i);
      assert |next| == |cs|;
      GrowFromSettles(genome, others, next, i + 1);
      GrowFromShape(genome, others, next, i + 1);
      var r := GrowFrom(genome, others, next, i + 1);
      assert r == GrowFrom(genome, others, cs, i);
      assert SamePlaces(next, cs);
      forall k | i <= k < |cs| && cs[k].state == Growing
        ensures r[k].state == Grown <==> !CanGrow(cs[k], others, cs)
      {
        if k == i {
          GrowCellCases(genome, others, cs, i);
          assert r[k] == next[k];
        } else {
          assert next[k] == cs[k];
          OpenFromPlaces(cs[k], next[k], others, cs, next, 0);
        }
      }
    }
  }

  /** Cells appended during a pass are visited after every cell that could pay for them,
      so they settle against the final list. */
  lemma {:induction false} GrowFromLateCells(genome: seq<Gene>, others: seq<PCell>, cs: seq<PCell>, i: nat, n: nat)
    requires ValidGenes(genome) && GenesValid(cs) && i <= n <= |cs|
    requires forall k :: n <= k < |cs| ==> cs[k].state == Growing && cs[k].energy == 0
    ensures var r := GrowFrom(genome, others, cs, i);
      forall k :: n <= k < |r| ==> (r[k].state == Grown <==> !CanGrow(r[k], others, r))
    decreases n - i
  {
    var r := GrowFrom(genome, others, cs, i);
    if i < n {
      var next := GrowCell(genome, others, cs, i);
      GrowCellShape(genome, others, cs, i);
      GrowCellMeasure(genome, others, cs, i);
      forall k | n <= k < |next|
        ensures next[k].state == Growing && next[k].energy == 0
      {
        if k < |cs| {
          assert next[k] == cs[k];
        }
      }
      GrowFromLateCells(genome, others, next, i + 1, n);
      assert r == GrowFrom(genome, others, next, i + 1);
    } else {
      GrowFromSettles(genome, others, cs, i);
      GrowFromShape(genome, others, cs, i);
      forall k | n <= k < |r|
        ensures r[k].state == Grown <==> !CanGrow(r[k], others, r)
      {
        OpenFromPlaces(cs[k], r[k], others, cs, r, 0);
      }
    }
  }

  /** The children created by `grow` are looked at in the same pass: with no energy they
      never grow, and they are Grown at once exactly when no direction is growable for them
      against the tree as the pass leaves it. */
  lemma GrowChildrenSettle(genome: seq<Gene>, others: seq<PCell>, cs: seq<PCell>)
    requires ValidGenes(genome) && GenesValid(cs)
    ensures var r := GrowFrom(genome, others, cs, 0);
      forall k :: |cs| <= k < |r| ==>
        r[k].energy == 0 && (r[k].state == Grown <==> !CanGrow(r[k], others, r))
  {
    GrowFromShape(genome, others, cs, 0);
    GrowFromLateCells(genome, others, cs, 0, |cs|);
  }

  // ---------------------------------------------------------------------------
  // `update_cells`

  /** What `how_mutch_upper` counts for a square: the cells of every tree, this one's
      included, in the same column and strictly higher up. */
  function Upper(others: seq<PCell>, cs: seq<PCell>, x: int, y: int): nat
  {
    CountAbove(others, x, y) + CountAbove(cs, x, y)
  }

  /** `update_cells`: every cell gains the energy of its light level under the cells above
      it; positions do not change during the pass, so every cell sees the same shading. */
  function Illuminate(others: seq<PCell>, cs: seq<PCell>): (r: seq<PCell>)
    ensures |r| == |cs|
  {
    seq(|cs|, k requires 0 <= k < |cs| =>
      Accrue(cs[k], Level(Rows, SunLevel, cs[k].y), Upper(others, cs, cs[k].x, cs[k].y)))
  }

  /** The light pass moves nothing and only ever adds energy: at most 48 (3 times the top
      level 16) to a cell inside the grid, nothing to a cell with three or more cells above
      it, and the full 3 times its level to a cell with nothing above it. */
  lemma IlluminateFacts(others: seq<PCell>, cs: seq<PCell>)
    ensures var r := Illuminate(others, cs);
      SamePlaces(r, cs) &&
      (forall k :: 0 <= k < |cs| ==> r[k].state == cs[k].state && r[k].gene == cs[k].gene) &&
      (forall k :: 0 <= k < |cs| && InBounds(cs[k].x, cs[k].y) ==>
        cs[k].energy <= r[k].energy <= cs[k].energy + ShadeLimit * MaxLevel) &&
      (forall k :: 0 <= k < |cs| && Upper(others, cs, cs[k].x, cs[k].y) >= ShadeLimit ==> r[k] == cs[k]) &&
      (forall k :: 0 <= k < |cs| && Upper(others, cs, cs[k].x, cs[k].y) == 0 ==>
        r[k].energy == cs[k].energy + ShadeLimit * Level(Rows, SunLevel, cs[k].y))
  {
    var r := Illuminate(others, cs);
    forall k | 0 <= k < |cs| && InBounds(cs[k].x, cs[k].y)
      ensures cs[k].energy <= r[k].energy <= cs[k].energy + ShadeLimit * MaxLevel
    {
      var level := Level(Rows, SunLevel, cs[k].y);
      LevelOnGrid(Rows, SunLevel, cs[k].y);
      assert ShadeLimit * level <= ShadeLimit * MaxLevel;
    }
  }

  // ---------------------------------------------------------------------------
  // `first_die`

  /** `[cell for cell in cells if cell.state == '0']`: the Growing cells, in order. */
  function KeepGrowing(cs: seq<PCell>): (r: seq<PCell>)
    ensures |r| <= |cs|
    ensures forall c {:trigger multiset(r)[c]} :: multiset(r)[c] == if c.state == Growing then multiset(cs)[c] else 0
  {
    if cs == [] then []
    else
      assert cs == [cs[0]] + cs[1..];
      (if cs[0].state == Growing then [cs[0]] else []) + KeepGrowing(cs[1..])
  }

  lemma KeepGrowingMembers(cs: seq<PCell>)
    ensures forall c {:trigger c in KeepGrowing(cs)} :: c in KeepGrowing(cs) <==> c in cs && c.state == Growing
  {
    var r := KeepGrowing(cs);
    forall c
      ensures c in r <==> c in cs && c.state == Growing
    {
      assert c in r <==> multiset(r)[c] > 0;
      assert c in cs <==> multiset(cs)[c] > 0;
    }
  }
  /** The survivors keep well-formed genes. */
  lemma KeepGrowingGenes(cs: seq<PCell>)
    requires GenesValid(cs)
    ensures GenesValid(KeepGrowing(cs))
  {
    var r := KeepGrowing(cs);
    KeepGrowingMembers(cs);
    forall k | 0 <= k < |r|
      ensures ValidGene(r[k].gene)
    {
      assert r[k] in r;
      var j :| 0 <= j < |cs| && cs[j] == r[k];
    }
  }

  // ---------------------------------------------------------------------------
  // `fall_cells`

  /** `fall_cells` from index `i` on: a cell above a free square (no cell of any tree on
      it) drops one row, a cell on the ground row stays, any other cell is removed; the
      loop index moves on after a removal too, so the cell after a removed one is passed
      over in this pass. */
  function FallFrom(others: seq<PCell>, cs: seq<PCell>, i: nat): (r: seq<PCell>)
    ensures |r| <= |cs|
    decreases |cs| - i
  {
    if i >= |cs| then cs
    else
      var c := cs[i];
      if c.y < Rows - 1 && !Taken(Pos(c.x, c.y + 1), others, cs) then
        FallFrom(others, cs[i := c.(y := c.y + 1)], i + 1)
      else if c.y == Rows - 1 then
        FallFrom(others, cs, i + 1)
      else
        FallFrom(others, cs[..i] + cs[i + 1..], i + 1)
  }

  /** `c'` is `c` as a pass of `fall_cells` can leave it: where it was, or one row lower. */
  predicate Fell(c: PCell, c': PCell)
  {
    c' == c || (c.y < Rows - 1 && c' == c.(y := c.y + 1))
  }

  /** `fall_cells` never adds a cell: every cell left is an earlier one, unmoved or one row
      lower, and the cells whose turn has passed are untouched. */
  lemma {:induction false} FallFromShape(others: seq<PCell>, cs: seq<PCell>, i: nat)
    requires i <= |cs|
    ensures FallShape(cs, FallFrom(others, cs, i), i)
    decreases |cs| - i, 1
  {
    if i < |cs| {
      var c := cs[i];
      if c.y < Rows - 1 && !Taken(Pos(c.x, c.y + 1), others, cs) {
        FallShapeMove(others, cs, i);
      } else if c.y == Rows - 1 {
        FallShapeStay(others, cs, i);
      } else {
        FallShapeRemove(others, cs, i);
      }
    }
  }

  /** What FallFromShape states: every cell left from `i` on is an earlier one from `i` on,
      unmoved or one row lower, and the cells before `i` are untouched. */
  predicate FallShape(cs: seq<PCell>, r: seq<PCell>, i: nat)
  {
    i <= |r| <= |cs| && r[..i] == cs[..i] &&
    forall k :: i <= k < |r| ==> exists j :: i <= j < |cs| && Fell(cs[j], r[k])
  }

  lemma {:induction false} FallShapeMove(others: seq<PCell>, cs: seq<PCell>, i: nat)
    requires i < |cs| && cs[i].y < Rows - 1 && !Taken(Pos(cs[i].x, cs[i].y + 1), others, cs)
    ensures FallShape(cs, FallFrom(others, cs, i), i)
    decreases |cs| - i, 0
  {
    var next := cs[i := cs[i].(y := cs[i].y + 1)];
    var r := FallFrom(others, next, i + 1);
    assert FallFrom(others, cs, i) == r;
    FallFromShape(others, next, i + 1);
    FallShapeStep(cs, next, r, i, 0);
  }

  lemma {:induction false} FallShapeStay(others: seq<PCell>, cs: seq<PCell>, i: nat)
    requires i < |cs| && cs[i].y == Rows - 1
    ensures FallShape(cs, FallFrom(others, cs, i), i)
    decreases |cs| - i, 0
  {
    var r := FallFrom(others, cs, i + 1);
    assert FallFrom(others, cs, i) == r;
    FallFromShape(others, cs, i + 1);
    FallShapeStep(cs, cs, r, i, 0);
  }

  lemma {:induction false} FallShapeRemove(others: seq<PCell>, cs: seq<PCell>, i: nat)
    requires i < |cs| && cs[i].y != Rows - 1
    requires !(cs[i].y < Rows - 1 && !Taken(Pos(cs[i].x, cs[i].y + 1), others, cs))
    ensures FallShape(cs, FallFrom(others, cs, i), i)
    decreases |cs| - i, 0
  {
    var next := cs[..i] + cs[i + 1..];
    var r := FallFrom(others, next, i + 1);
    assert FallFrom(others, cs, i) == r;
    if i + 1 <= |next| {
      assert next[..i] == cs[..i];
      assert forall j :: i <= j < |next| ==> next[j] == cs[j + 1];
      FallFromShape(others, next, i + 1);
      FallShapeStep(cs, next, r, i, 1);
    } else {
      assert r == next == cs[..i];
    }
  }

  /** The step of FallFromShape: `next` is `cs` after the pass visited cell `i` (moved
      down or kept with `shift` 0, removed with `shift` 1), and `r` is what the rest of
      the pass makes of `next`. */
  lemma FallShapeStep(cs: seq<PCell>, next: seq<PCell>, r: seq<PCell>, i: nat, shift: nat)
    requires shift <= 1 && i + 1 <= |next| && |next| + shift == |cs|
    requires next[..i] == cs[..i] && Fell(cs[i + shift], next[i])
    requires forall j :: i + 1 <= j < |next| ==> next[j] == cs[j + shift]
    requires FallShape(next, r, i + 1) && i + 1 <= |r|
    ensures FallShape(cs, r, i)
  {
    forall k | i <= k < |r|
      ensures exists j :: i <= j < |cs| && Fell(cs[j], r[k])
    {
      if k == i {
        assert r[..i + 1][i] == next[..i + 1][i];
        assert Fell(cs[i + shift], r[k]);
      } else {
        var j :| i + 1 <= j < |next| && Fell(next[j], r[k]);
        assert Fell(cs[j + shift], r[k]);
      }
    }
    assert r[..i] == r[..i + 1][..i];
    assert next[..i] == next[..i + 1][..i];
  }

  /** The visit of cell `i` in `fall_cells`: the cell list after it. */
  function Visit(others: seq<PCell>, cs: seq<PCell>, i: nat): (r: seq<PCell>)
    requires i < |cs|
    ensures |r| <= |cs|
  {
    var c := cs[i];
    if c.y < Rows - 1 && !Taken(Pos(c.x, c.y + 1), others, cs) then cs[i := c.(y := c.y + 1)]
    else if c.y == Rows - 1 then cs
    else cs[..i] + cs[i + 1..]
  }

  /** A pass from `i` is the visit of cell `i` followed by the pass from `i + 1`. */
  lemma FallFromVisit(others: seq<PCell>, cs: seq<PCell>, i: nat)
    requires i < |cs|
    ensures FallFrom(others, cs, i) == FallFrom(others, Visit(others, cs, i), i + 1)
  {
  }

  /** Moving a cell down a row or removing it keeps every gene record well formed. */
  lemma FallVisitGenes(cs: seq<PCell>, i: nat)
    requires i < |cs| && GenesValid(cs)
    ensures GenesValid(cs[i := cs[i].(y := cs[i].y + 1)]) && GenesValid(cs[..i] + cs[i + 1..])
  {
    var next := cs[..i] + cs[i + 1..];
    assert forall k :: 0 <= k < |next| ==> next[k] == if k < i then cs[k] else cs[k + 1];
  }

  /** One cell dropping onto a free square keeps the tree apart from the world and
      inside the grid. */
  lemma FallMoveApart(others: seq<PCell>, cs: seq<PCell>, i: nat)
    requires i < |cs| && cs[i].y < Rows - 1
    requires !Taken(Pos(cs[i].x, cs[i].y + 1), others, cs)
    ensures var next := cs[i := cs[i].(y := cs[i].y + 1)];
      (Apart(others, cs) ==> Apart(others, next)) && (AllInBounds(cs) ==> AllInBounds(next))
  {
    var c := cs[i];
    var next := cs[i := c.(y := c.y + 1)];
    if Apart(others, cs) {
      forall j, k | 0 <= j < k < |next|
        ensures next[j].x != next[k].x || next[j].y != next[k].y
      {
        if j == i {
          assert !(cs[k].x == c.x && cs[k].y == c.y + 1);
        } else if k == i {
          assert !(cs[j].x == c.x && cs[j].y == c.y + 1);
        }
      }
    }
  }

  /** Removing one cell keeps the tree apart from the world and inside the grid. */
  lemma RemoveApart(others: seq<PCell>, cs: seq<PCell>, i: nat)
    requires i < |cs|
    ensures var next := cs[..i] + cs[i + 1..];
      (Apart(others, cs) ==> Apart(others, next)) && (AllInBounds(cs) ==> AllInBounds(next))
  {
    var next := cs[..i] + cs[i + 1..];
    assert forall k :: 0 <= k < |next| ==> next[k] == if k < i then cs[k] else cs[k + 1];
  }

  /** A fall never lands on an occupied square, so it keeps the tree apart from the
      world, and it never leaves the grid. */
  lemma {:induction false} FallFromApart(others: seq<PCell>, cs: seq<PCell>, i: nat)
    ensures var r := FallFrom(others, cs, i);
      (Apart(others, cs) ==> Apart(others, r)) && (AllInBounds(cs) ==> AllInBounds(r))
    decreases |cs| - i
  {
    if i < |cs| {
      var next := Visit(others, cs, i);
      FallFromVisit(others, cs, i);
      VisitApart(others, cs, i);
      FallFromApart(others, next, i + 1);
    }
  }

  /** One visit keeps the tree apart from the world and inside the grid. */
  lemma VisitApart(others: seq<PCell>, cs: seq<PCell>, i: nat)
    requires i < |cs|
    ensures var next := Visit(others, cs, i);
      (Apart(others, cs) ==> Apart(others, next)) && (AllInBounds(cs) ==> AllInBounds(next))
  {
    var c := cs[i];
    if c.y < Rows - 1 && !Taken(Pos(c.x, c.y + 1), others, cs) {
      FallMoveApart(others, cs, i);
    } else if c.y != Rows - 1 {
      RemoveApart(others, cs, i);
    }
  }

  /** Ground-row cells that are still to be visited are never removed or moved. */
  lemma {:induction false} FallKeepsGround(others: seq<PCell>, cs: seq<PCell>, i: nat)
    ensures KeptGround(cs, FallFrom(others, cs, i), i)
    decreases |cs| - i, 1
  {
    if i < |cs| {
      var c := cs[i];
      if c.y < Rows - 1 && !Taken(Pos(c.x, c.y + 1), others, cs) {
        KeepsGroundMove(others, cs, i);
      } else if c.y == Rows - 1 {
        KeepsGroundStay(others, cs, i);
      } else {
        KeepsGroundRemove(others, cs, i);
      }
    }
  }

  /** What FallKeepsGround states: every ground-row cell of `cs` from `i` on is in `r`. */
  predicate KeptGround(cs: seq<PCell>, r: seq<PCell>, i: nat)
  {
    forall k :: i <= k < |cs| && cs[k].y == Rows - 1 ==> cs[k] in r
  }

  lemma {:induction false} KeepsGroundMove(others: seq<PCell>, cs: seq<PCell>, i: nat)
    requires i < |cs| && cs[i].y < Rows - 1 && !Taken(Pos(cs[i].x, cs[i].y + 1), others, cs)
    ensures KeptGround(cs, FallFrom(others, cs, i), i)
    decreases |cs| - i, 0
  {
    var next := cs[i := cs[i].(y := cs[i].y + 1)];
    var r := FallFrom(others, next, i + 1);
    assert FallFrom(others, cs, i) == r;
    FallKeepsGround(others, next, i + 1);
    FallFromPrefix(others, next, i + 1);
    KeepsGroundStep(cs, next, r, i, 0);
  }

  lemma {:induction false} KeepsGroundStay(others: seq<PCell>, cs: seq<PCell>, i: nat)
    requires i < |cs| && cs[i].y == Rows - 1
    ensures KeptGround(cs, FallFrom(others, cs, i), i)
    decreases |cs| - i, 0
  {
    var r := FallFrom(others, cs, i + 1);
    assert FallFrom(others, cs, i) == r;
    FallKeepsGround(others, cs, i + 1);
    FallFromPrefix(others, cs, i + 1);
    KeepsGroundStep(cs, cs, r, i, 0);
  }

  lemma {:induction false} KeepsGroundRemove(others: seq<PCell>, cs: seq<PCell>, i: nat)
    requires i < |cs| && cs[i].y != Rows - 1
    requires !(cs[i].y < Rows - 1 && !Taken(Pos(cs[i].x, cs[i].y + 1), others, cs))
    ensures KeptGround(cs, FallFrom(others, cs, i), i)
    decreases |cs| - i, 0
  {
    var next := cs[..i] + cs[i + 1..];
    FallFromRemoved(others, cs, i);
    FallKeepsGround(others, next, i + 1);
    if i + 1 <= |next| {
      FallFromPrefix(others, next, i + 1);
    }
    KeepsGroundRemoveStep(cs, FallFrom(others, next, i + 1), i);
  }

  /** The removal step of FallKeepsGround, for any `r` the rest of the pass makes. */
  lemma KeepsGroundRemoveStep(cs: seq<PCell>, r: seq<PCell>, i: nat)
    requires i < |cs| && cs[i].y != Rows - 1
    requires KeptGround(cs[..i] + cs[i + 1..], r, i + 1)
    requires i + 1 < |cs| ==> i + 1 <= |r| && r[..i + 1] == (cs[..i] + cs[i + 1..])[..i + 1]
    ensures KeptGround(cs, r, i)
  {
    RemoveShifts(cs, i);
    KeepsGroundStep(cs, cs[..i] + cs[i + 1..], r, i, 1);
  }

  /** A pass that removes cell `i` goes on with the list without it. */
  lemma FallFromRemoved(others: seq<PCell>, cs: seq<PCell>, i: nat)
    requires i < |cs| && cs[i].y != Rows - 1
    requires !(cs[i].y < Rows - 1 && !Taken(Pos(cs[i].x, cs[i].y + 1), others, cs))
    ensures FallFrom(others, cs, i) == FallFrom(others, cs[..i] + cs[i + 1..], i + 1)
  {
  }

  /** A pass from `i` leaves the cells before `i` as they were. */
  lemma FallFromPrefix(others: seq<PCell>, cs: seq<PCell>, i: nat)
    requires i <= |cs|
    ensures var r := FallFrom(others, cs, i); i <= |r| && r[..i] == cs[..i]
  {
    FallFromShape(others, cs, i);
  }

  /** The step of FallKeepsGround: `next` is `cs` after the visit of cell `i` (cells
      moved back by `shift` after a removal) and `r` what the rest of the pass makes of it. */
  lemma KeepsGroundStep(cs: seq<PCell>, next: seq<PCell>, r: seq<PCell>, i: nat, shift: nat)
    requires i < |cs| && shift <= 1 && |next| + shift == |cs|
    requires forall j :: i < j < |cs| ==> next[j - shift] == cs[j]
    requires cs[i].y == Rows - 1 ==> shift == 0 && next[i] == cs[i]
    requires KeptGround(next, r, i + 1)
    requires i + 1 <= |next| ==> i + 1 <= |r| && r[..i + 1] == next[..i + 1]
    ensures KeptGround(cs, r, i)
  {
    forall k | i <= k < |cs| && cs[k].y == Rows - 1
      ensures cs[k] in r
    {
      if k - shift == i {
        assert r[..i + 1][i] == next[i];
      } else {
        assert next[k - shift] == cs[k];
      }
    }
  }

  /** The skip in a small case: the first cell has a blocked square beneath it and is
      removed, so the second cell, though nothing is beneath it, does not fall in this
      pass. */
  lemma FallSkipsAfterRemoval()
    ensures var blocker := Cell(5, 11, [0, 0, 0, 0], Grown, 0);
      var a := Cell(5, 10, [0, 0, 0, 0], Growing, 0);
      var b := Cell(6, 10, [0, 0, 0, 0], Growing, 0);
      FallFrom([blocker], [a, b], 0) == [b]
  {
    var blocker := Cell(5, 11, [0, 0, 0, 0], Grown, 0);
    var a := Cell(5, 10, [0, 0, 0, 0], Growing, 0);
    var b := Cell(6, 10, [0, 0, 0, 0], Growing, 0);
    assert [blocker][0].x == 5 && [blocker][0].y == 11;
    assert Taken(Pos(5, 11), [blocker], [a, b]);
    assert [a, b][..0] + [a, b][1..] == [b];
    assert FallFrom([blocker], [a, b], 0) == FallFrom([blocker], [b], 1);
  }

  // ---------------------------------------------------------------------------
  // The seeding loop of `check_death`

  /** The loop of `check_death` from index `i` on: every ground-row cell it visits seeds a
      child tree and is removed; other cells stay. The index moves on after a removal, so a
      ground-row cell right after a seeding one is passed over. The result is the cells left
      and the seeding cells in the order they seeded. */
  function SeedFrom(cs: seq<PCell>, i: nat): (r: (seq<PCell>, seq<PCell>))
    ensures |r.0| + |r.1| == |cs|
    decreases |cs| - i
  {
    if i >= |cs| then (cs, [])
    else if cs[i].y == Rows - 1 then
      var t := SeedFrom(cs[..i] + cs[i + 1..], i + 1);
      (t.0, [cs[i]] + t.1)
    else SeedFrom(cs, i + 1)
  }

  /** Seeding only moves cells out: the cells left and the seeding cells are together the
      cells there were, every seeding cell is on the ground row, and every cell off the
      ground row is still there. */
  lemma {:induction false} SeedFromConserves(cs: seq<PCell>, i: nat)
    ensures SeedConserved(cs, SeedFrom(cs, i))
    decreases |cs| - i, 1
  {
    if i < |cs| {
      if cs[i].y == Rows - 1 {
        SeedConservesTake(cs, i);
      } else {
        assert SeedFrom(cs, i) == SeedFrom(cs, i + 1);
        SeedFromConserves(cs, i + 1);
      }
    }
  }

  /** What SeedFromConserves states of the pair `r` the pass makes of `cs`. */
  predicate SeedConserved(cs: seq<PCell>, r: (seq<PCell>, seq<PCell>))
  {
    multiset(r.0) + multiset(r.1) == multiset(cs) &&
    (forall k :: 0 <= k < |r.1| ==> r.1[k].y == Rows - 1) &&
    (forall c :: c in cs && c.y != Rows - 1 ==> c in r.0)
  }

  /** The seeding case of SeedFromConserves: cell `i` leaves `cs` for the seeds. */
  lemma {:induction false} SeedConservesTake(cs: seq<PCell>, i: nat)
    requires i < |cs| && cs[i].y == Rows - 1
    ensures SeedConserved(cs, SeedFrom(cs, i))
    decreases |cs| - i, 0
  {
    var rest := cs[..i] + cs[i + 1..];
    var t := SeedFrom(rest, i + 1);
    assert SeedFrom(cs, i) == (t.0, [cs[i]] + t.1);
    SeedFromConserves(rest, i + 1);
    TakeConserved(cs, i, t);
  }

  /** Putting a ground-row cell `i` in front of the seeds of what is left without it
      conserves `cs`. */
  lemma TakeConserved(cs: seq<PCell>, i: nat, t: (seq<PCell>, seq<PCell>))
    requires i < |cs| && cs[i].y == Rows - 1 && SeedConserved(cs[..i] + cs[i + 1..], t)
    ensures SeedConserved(cs, (t.0, [cs[i]] + t.1))
  {
    RemoveMultiset(cs, i);
    assert multiset([cs[i]] + t.1) == multiset{cs[i]} + multiset(t.1);
    forall k | 0 <= k < |[cs[i]] + t.1|
      ensures ([cs[i]] + t.1)[k].y == Rows - 1
    {
      if k > 0 {
        ConsShift([cs[i]] + t.1, cs[i], t.1, k);
      }
    }
  }

  /** One step of the seeding pass, in the form its loop keeps: the seeds gathered so far
      followed by what the pass still gathers from `cs` at `i`. */
  lemma SeedFromStep(cs: seq<PCell>, i: nat, seeds: seq<PCell>)
    requires i < |cs|
    ensures cs[i].y == Rows - 1 ==>
      var rest := cs[..i] + cs[i + 1..];
      SeedFrom(rest, i + 1).0 == SeedFrom(cs, i).0 &&
      (seeds + [cs[i]]) + SeedFrom(rest, i + 1).1 == seeds + SeedFrom(cs, i).1
    ensures cs[i].y != Rows - 1 ==> SeedFrom(cs, i + 1) == SeedFrom(cs, i)
  {
    if cs[i].y == Rows - 1 {
      var rest := cs[..i] + cs[i + 1..];
      assert (seeds + [cs[i]]) + SeedFrom(rest, i + 1).1 == seeds + ([cs[i]] + SeedFrom(rest, i + 1).1);
    }
  }

  /** Where a seeding pass over `start` stands at index `i` of `cs`: the cells it will
      leave are the pass's, and the seeds met so far followed by the seeds still to come
      are the pass's seeds. */
  predicate SeedProgress(cs: seq<PCell>, i: nat, start: seq<PCell>, seeds: seq<PCell>)
  {
    SeedFrom(cs, i).0 == SeedFrom(start, 0).0 && seeds + SeedFrom(cs, i).1 == SeedFrom(start, 0).1
  }

  /** Visiting cell `i` keeps the pass on course, whether the cell seeds or not. */
  lemma SeedProgressStep(cs: seq<PCell>, i: nat, start: seq<PCell>, seeds: seq<PCell>)
    requires i < |cs| && SeedProgress(cs, i, start, seeds)
    ensures cs[i].y == Rows - 1 ==> SeedProgress(cs[..i] + cs[i + 1..], i + 1, start, seeds + [cs[i]])
    ensures cs[i].y != Rows - 1 ==> SeedProgress(cs, i + 1, start, seeds)
  {
    SeedFromStep(cs, i, seeds);
  }

  /** The skip in a small case: of two neighbouring ground-row cells only the first seeds. */
  lemma SeedSkipsAfterRemoval()
    ensures var a := Cell(7, Rows - 1, [0, 0, 0, 0], Grown, 0);
      var b := Cell(8, Rows - 1, [0, 0, 0, 0], Grown, 0);
      SeedFrom([a, b], 0) == ([b], [a])
  {
    var a := Cell(7, Rows - 1, [0, 0, 0, 0], Grown, 0);
    var b := Cell(8, Rows - 1, [0, 0, 0, 0], Grown, 0);
    assert [a, b][..0] + [a, b][1..] == [b];
    assert SeedFrom([b], 1) == ([b], []);
    assert SeedFrom([a, b], 0) == (SeedFrom([b], 1).0, [a] + SeedFrom([b], 1).1);
    assert [a] + SeedFrom([b], 1).1 == [a];
  }
}
