# Plant evolution: a verified model of the tree engine

The system is a cellular-automaton simulation of plants on a grid. `main.py` runs a
world of trees. A tree is a list of cells and a genome of 16 gene records; each record
names, for the four directions Up, Left, Right and Down, either the sentinel 30
("blocked") or the gene record a child cell in that direction will carry. On every
step of the run loop, each tree takes a turn in list order. An Alive tree then:

- ages one step;
- lets each of its Growing cells sprout children where the grid is free, using the
  cell's energy (18) to grow, or settles the cell as Grown when nowhere is free;
- lights its cells, from their height and the number of cells above them in their
  column;
- collects the energy of its Grown cells and pays 13 per cell.

A tree that runs out of energy or reaches its die age keeps only its Growing cells
and starts Dying. A Dying tree's cells fall one row per step. Each cell on the ground
row seeds a new tree, its genome copied and possibly mutated, and the generation
counter counts the mutations. `main.py` also saves a genome to a text file, one line
of comma-separated integers per entry, and loads it back. `show.py` is a
single-tree viewer: it loads such a file (or takes 16 records `[0, 1, 2, 3]`), plants
one seed in the middle of the ground row, and steps the tree when asked, on a closed
80 x 60 grid with no other trees.

The Dafny project models that engine:

| file | module | what it models |
|---|---|---|
| `wrappers.dfy` | `Wrappers` | `Option`, for operations that can fail |
| `seqs.dfy` | `Seqs` | small sequence facts the proofs share |
| `cells.dfy` | `Cells` | the cell record shared by both programs: light level, shade count, energy gain, the payment for growth, the settlement of Grown cells |
| `genome.dfy` | `Genome` | gene records, `generate_gen`, `mutate`, `mutate_die_age` |
| `genome_text.dfy` | `GenomeText` | the genome file: `str`/`int` of the numbers, `strip`, `split(',')`, save and load |
| `plant_rules.dfy` | `PlantRules` | specification functions for `main.py`'s grow, light, first death, fall and seeding passes, with their lemmas |
| `plant.dfy` | `Plant` | `main.py`'s `Tree` and `Simulation` as classes whose methods are proved against those functions |
| `show_rules.dfy` | `ShowRules` | specification functions for `show.py`'s grow and light passes, with their lemmas |
| `show.dfy` | `Show` | `show.py`'s `Tree` as a class, the genome choice of `main()` and the start-up |

Cells are immutable values kept in a tree's `cells : seq<...>` field. A method that
changes a cell in place writes a new value at the same index. Trees and the
simulation are classes: their methods say, in `modifies`, which fields they change,
and in `ensures`, the new state as a function of the old one. Every random draw of
the source is an explicit input, a record of the numbers `random` would return.

## Model

| member | source | states |
|---|---|---|
| Cells.Sprout | main.py:22-32 | a new cell sits where it is put with the gene it is given, holds no energy and is Growing |
| Cells.Level | main.py:36-39 | the light level is the height above the ground row plus the sun level, capped at 16 |
| Cells.LevelMonotone | main.py:36-39 | the light level never falls as a cell rises or the sun grows |
| Cells.LevelOnGrid | main.py:36-39 | on the grid, with a non-negative sun, the level is non-negative, and at least the sun level when that is at most 16 |
| Cells.Gain | main.py:52 | the gain of one lighting is level times max(3 - upper, 0): 0 from three cells above on, 3 * level with none above, and between 0 and 3 * level otherwise |
| Cells.GainAntitone | main.py:52 | more cells above never mean more gain |
| Cells.CountAbove | main.py:41-47 | the count of cells in the column strictly above a square is at most the number of cells scanned |
| Cells.CountAboveAppend | main.py:43-46 | counting over two lists is the sum of the counts, so scanning tree by tree counts the whole world |
| Cells.CountAbovePlaces | main.py:45 | the count depends only on where cells are, not on their energy, state or gene |
| Cells.FullShadeNoGain | main.py:52 | a cell with three or more cells above it gains nothing |
| Cells.Accrue | main.py:49-54 | lighting a cell keeps its place, gene and state and adds between 0 and 3 * level to its energy, nothing at all in full shade |
| Cells.Paid | main.py:163-165 | paying for growth keeps place and gene, settles the cell as Grown and takes 18 from its energy |
| Cells.Harvest | main.py:176-179 | settling keeps the number of cells |
| Cells.HarvestCells | main.py:176-179 | settling keeps every place, state and gene, zeroes the energy of Grown cells and leaves Growing cells untouched |
| Cells.HarvestLedger | main.py:170-179 | the energy the cells lose in settling is exactly the sum collected from Grown cells, and no Grown cell holds energy afterwards |
| Cells.SumGrownNonnegative | main.py:171 | the collected sum is never negative when no cell is in debt |
| Cells.OccupiedAppend | main.py:122 | a square is taken in the world exactly when some tree's list holds a cell there |
| Genome.RollAll | main.py:84-89 | each of the four draws maps to one direction outcome |
| Genome.CountBlocked | main.py:92 | the number of blocked directions is at most the record's length |
| Genome.FirstBlocked | main.py:94 | `result.index(30)`: the first blocked position, with no blocked position before it |
| Genome.CountBlockedReplace | main.py:93-95 | one redraw of a blocked direction lowers the blocked count by one |
| Genome.GenerateGen | main.py:82-97 | the record is well formed; a record other than 0 is the four mapped draws; record 0 keeps at most two blocked directions, only the first extra blocked ones are redrawn, and a redrawn direction that was the m-th blocked one (counting from 0) holds the m-th redraw |
| Genome.Mutate | main.py:206-217 | the flag is 1 exactly when the draw fires; without it the genome is returned unchanged; with it exactly one direction of one record takes the drawn value and all else is kept, and the genome stays well formed |
| Genome.MutateDieAge | main.py:219-228 | the die age moves by at most one, moves exactly when the draw fires, and up exactly when `pom` is 0 |
| GenomeText.NatToString | main.py:410 | `str` of a natural number gives a non-empty string of digits with no leading zero |
| GenomeText.IntToString | main.py:410 | `str` of an integer ends in a digit and starts with '-' exactly when the integer is negative |
| GenomeText.NatToStringValue | main.py:410 | the digits `str` writes have the number's value |
| GenomeText.StripLeft | main.py:419 | the result is a suffix of the string, everything removed before it is whitespace, and it does not start with whitespace |
| GenomeText.StripRight | main.py:419 | the result is a prefix of the string, everything removed after it is whitespace, and it does not end with whitespace |
| GenomeText.Strip | main.py:419 | `strip()` returns a contiguous piece of the string with only whitespace before and after it in the string, and no whitespace at either of its own ends |
| GenomeText.StripTidy | main.py:419 | `strip()` leaves a string with no whitespace at its ends unchanged |
| GenomeText.DropUnderscores | main.py:419 | the underscores `int` allows between digits are dropped, and a string of digits is left as it is |
| GenomeText.ParseInt | main.py:419 | `int` over ASCII digits accepts nothing that strips to the empty string |
| GenomeText.Literal | main.py:419 | an integer literal is never empty |
| GenomeText.ParseIntToString | main.py:410-419 | `int(str(n)) == n` for every integer |
| GenomeText.ParseIntRejectsEmpty | main.py:419 | `int` fails on an empty, a blank and a bare '-' field |
| GenomeText.Split | main.py:419 | `split(',')` gives at least one part and no part holds a comma |
| GenomeText.SplitJoin | main.py:410-419 | `split(',')` undoes `','.join` for parts without a comma |
| GenomeText.Strings | main.py:410 | `map(str, gene)` gives one string per number |
| GenomeText.Save | main.py:409-410 | the file is empty exactly when the genome is |
| GenomeText.Lines | main.py:419 | iterating a file yields non-empty lines that put back together give the text; every line but the last ends in '\n' and no line holds '\n' before its end |
| GenomeText.ParseAll | main.py:419 | `map(int, ...)` succeeds with one number per field, each the parse of its field |
| GenomeText.ParseLine | main.py:419 | a parsed line has one number per comma-separated part of the stripped line |
| GenomeText.ParseLineBlank | main.py:419 | a line of only whitespace fails to parse |
| GenomeText.ParseLines | main.py:419 | a parsed file has one entry per line, each the parse of its line |
| GenomeText.Load | main.py:417-419 | a loaded genome has one entry per line of the file |
| GenomeText.LinesOfSave | main.py:409-410 | the saved file reads back as one line per entry |
| GenomeText.ParseSavedLine | main.py:410-419 | a saved entry line parses back to the entry |
| GenomeText.ParseAllStrings | main.py:410-419 | `map(int, map(str, e))` gives `e` back |
| GenomeText.ParseSavedLines | main.py:409-419 | the saved lines parse back to the genome |
| GenomeText.LoadSave | main.py:409-419 | loading a saved genome whose entries are non-empty gives the genome back |
| GenomeText.SaveEmptyEntryFails | main.py:410-419 | an empty entry saves as an empty line, which fails to load |
| PlantRules.Target | main.py:117-161 | Up exists exactly from rows 20 to the bottom and Down exactly above the ground row; Left and Right always exist, wrapping at the edges |
| PlantRules.TargetGeometry | main.py:121-161 | a target is one square up, down or sideways, on the grid when its cell is, and sideways targets wrap around the columns |
| PlantRules.TargetsDistinct | main.py:117-161 | two directions never aim at the same square |
| PlantRules.Opening | main.py:117-161 | a direction is open exactly when its outcome is not blocked, its target exists and no tree holds the target |
| PlantRules.CanGrowMeans | main.py:113-161 | `can_grow` holds exactly when some direction is open |
| PlantRules.SproutsCount | main.py:117-161 | a cell sprouts at most one child per direction, and some child exactly when a direction is open |
| PlantRules.SproutsCells | main.py:121-161 | each child is a Growing cell with no energy and a well-formed gene record, grown from an open direction with the gene that direction names |
| PlantRules.SproutsPlaces | main.py:117-161 | one cell's children are on different squares, none of them taken before the turn, and on the grid when the parent is |
| PlantRules.TryFromSnapshot | main.py:117-161 | the four checks, which see the children appended during the same turn, decide as they would on the list before the turn |
| PlantRules.GrowCell | main.py:114 | a Grown cell's turn changes nothing |
| PlantRules.GrowCellCases | main.py:112-168 | a turn changes nothing for a Grown cell or a cell too poor to grow; it settles a cell that cannot grow; it pays for a rich cell that can grow and appends its children |
| PlantRules.GrowCellShape | main.py:112-168 | a turn appends at most four fresh cells, changes no other cell, and keeps the turn's cell in place with its gene |
| PlantRules.GrowFrom | main.py:109-168 | the grow pass only lengthens the list and keeps every gene record well formed |
| PlantRules.GrowFromShape | main.py:109-168 | the pass keeps every cell's place and gene, leaves Grown cells untouched, changes energy only by paying 18 once, and appends cells without energy |
| PlantRules.GrowFromNonnegative | main.py:124-164 | growth is paid for only from 18 units on, so no cell goes into debt |
| PlantRules.GrowCellApart | main.py:122-161 | a turn keeps every square of the world holding at most one cell |
| PlantRules.GrowCellBounds | main.py:122-161 | a turn keeps the tree on the grid |
| PlantRules.GrowFromApart | main.py:109-168 | the grow pass keeps the tree's cells on distinct free squares and on the grid |
| PlantRules.GrowFromSettles | main.py:109-168 | with no cell able to pay, every Growing cell settles as Grown exactly when it cannot grow, and nothing moves |
| PlantRules.GrowChildrenSettle | main.py:111-168 | the children appended during a pass take their own turn in it: they hold no energy, and they end Grown exactly when they cannot grow |
| PlantRules.Illuminate | main.py:181-183 | lighting keeps the number of cells |
| PlantRules.IlluminateFacts | main.py:181-183 | lighting keeps places, states and genes, adds between 0 and 3 * 16 to each cell on the grid, and adds nothing to a cell with three cells above it in the world |
| PlantRules.KeepGrowing | main.py:237 | the first death keeps every Growing cell, as often as it occurs, and no Grown cell |
| PlantRules.KeepGrowingMembers | main.py:237 | a cell survives the first death exactly when it was there and is Growing |
| PlantRules.FallFrom | main.py:240-247 | the fall pass never adds a cell |
| PlantRules.FallFromShape | main.py:240-247 | every remaining cell is an earlier cell, in its place or one row lower |
| PlantRules.FallFromApart | main.py:240-247 | falling keeps the cells on distinct free squares and on the grid |
| PlantRules.FallKeepsGround | main.py:244-245 | a cell on the ground row is never removed by the fall pass |
| PlantRules.FallSkipsAfterRemoval | main.py:241-247 | removing a cell during the loop makes it skip the next cell: with a blocked cell before it, a cell that could fall stays where it is |
| PlantRules.SeedFrom | main.py:193-204 | the seeding pass splits the cells between those left and those that seed |
| PlantRules.SeedFromConserves | main.py:193-204 | kept and seeding cells together are the original cells, every seeding cell is on the ground row, and every cell above the ground row is kept |
| PlantRules.SeedSkipsAfterRemoval | main.py:193-204 | of two adjacent ground cells, only the first seeds in a pass, since the removal makes the loop skip the second |
| Plant.BirthPlace | main.py:103-107 | a tree starts at the given square when both coordinates are non-zero, and otherwise on the ground row at the drawn column |
| Plant.Paint | main.py:72 | the given colour is used when there is one, and otherwise the drawn one |
| Plant.GenerateGenes | main.py:71 | the 16 records are `generate_gen(i)` of the draws, record 0 with each redrawn direction holding the redraw its blocked rank selects |
| Plant.StartGenome | main.py:71-72 | a given genome is kept and a missing one generated as 16 records, and the colour entry is appended after the given or generated entries |
| Plant.WorldSplit | main.py:43-46 | scanning every tree sees the other trees' cells and the tree's own, for occupancy and for the shade count |
| Plant.RemoveFirst | main.py:234 | `trees.remove(self)` takes one tree out of the list |
| Plant.RemoveFirstMembers | main.py:234 | the removed tree is gone, nothing else is, and no tree appears twice |
| Plant.LivedLedger | main.py:170-174 | over a step, the tree's energy plus its cells' energy grows by what lighting added, less 13 per cell, and no Grown cell keeps energy |
| Plant.ChildGenome | main.py:195-196 | a seed's genome is the parent's 16 records, mutated by the draw, and still well formed |
| Plant.ChildColour | main.py:198-202 | an unmutated seed inherits the parent's colour entry; a mutated one draws its own |
| Plant.ChildDieAgeNear | main.py:197-202 | a seeded child's die age is within one of its parent's and differs exactly when the jitter fires; a jittered age of 0 is replaced by the drawn age in 88 to 92 |
| Plant.Tree.constructor | main.py:65-79 | the new tree has its genome and colour, its die age, one Growing seed cell at its birth place, the upkeep of one cell charged from 300, age 0 and state Alive |
| Plant.Tree.Birth | main.py:103-107 | the seed cell, with gene record 0, joins the end of the list at the birth place |
| Plant.Tree.Grow | main.py:109-168 | the cell list becomes the grow pass of the old list against the other trees, and the genome stays well formed |
| Plant.Tree.GrowTurn | main.py:111-168 | one cell's turn is `GrowCell` |
| Plant.Tree.TryDirections | main.py:117-161 | the direction loop gives the `can_grow` and `is_growed` flags and the list of the four-direction attempt, and leaves the cells it found untouched |
| Plant.Tree.TryDirection | main.py:117-161 | one direction of the loop is one attempt step |
| Plant.Tree.GrowInto | main.py:130-134 | a target is open exactly when no tree holds it; a child is appended exactly when it is open and the cell has 18 units |
| Plant.Tree.UpdateCells | main.py:181-183 | the cell list becomes its lighting against the whole world |
| Plant.Tree.LightCell | main.py:49-54 | one cell's `update_energy` writes the lit cell at its index |
| Plant.Tree.UpdateEnergy | main.py:170-174 | the income is the Grown cells' energy, which is then zeroed; the outlay is 13 per cell; the tree's energy changes by income minus outlay |
| Plant.Tree.DellCellsEnergy | main.py:176-179 | the Grown cells' energy is zeroed and nothing else changes |
| Plant.Tree.CheckFirstDeath | main.py:185-187 | at no energy or at the die age the tree keeps only its Growing cells and is Dying; otherwise nothing changes |
| Plant.Tree.FirstDie | main.py:236-238 | the tree keeps only its Growing cells and is Dying |
| Plant.Tree.Clear | main.py:230-234 | the tree is emptied, its energy and age zeroed, and it leaves the world's list |
| Plant.Tree.CheckForDowntime | main.py:252-254 | a tree with one cell from age 5 on is cleared and leaves the world; any other tree is untouched |
| Plant.Tree.FallCells | main.py:240-247 | the cell list becomes the fall pass of the old list against the other trees |
| Plant.Tree.FallVisit | main.py:241-247 | one cell's visit moves it down, leaves it, or removes it |
| Plant.Tree.CheckDeath | main.py:189-204 | an empty tree clears and leaves; otherwise the cells become what the seeding pass keeps, one child per seeding cell joins the end of the world, and the generation grows by the mutations among them |
| Plant.Tree.SeedCells | main.py:193-204 | the seeding loop leaves the kept cells and appends, in order, the children the seeding cells make from consecutive draws |
| Plant.Tree.SeedStep | main.py:194-204 | one pass of the seeding loop keeps the loop's invariant |
| Plant.Tree.SeedGround | main.py:194-204 | a ground cell's pass removes it and appends its child |
| Plant.Tree.SeedAt | main.py:195-204 | the cell at the index is removed and its child, made from the next draw, joins the end of the world |
| Plant.Tree.Seed | main.py:195-202 | the child is born at the cell with the mutated genome, the right colour and the jittered die age, and the generation grows exactly when the mutation fires |
| Plant.Tree.Step | main.py:256-266 | an Alive tree ages, grows, lights and settles, then starts Dying at no energy or its die age and is culled as a lone cell from age 5; a Dying tree falls and then seeds or, empty, leaves the world |
| Plant.Tree.Advance | main.py:256-266 | one step leaves the world well formed, never lowers the generation, and adds fewer new trees than the tree weighs, or removes the tree |
| Plant.Tree.StepAlive | main.py:257-263 | the Alive half of `step`: the new state, the first death and the cull, all in terms of the old state |
| Plant.Tree.Live | main.py:258-261 | age, grow, light and settle give the lived cells and energy |
| Plant.Tree.StepDying | main.py:264-266 | the Dying half of `step`: fall, then seed or leave |
| Plant.Simulation.CountUpper | main.py:41-47 | `how_mutch_upper`'s nested loop counts the cells of every tree above the square |
| Plant.Simulation.AddTree | main.py:318-319 | a newly born tree joins the end of the list, and the trees before it are kept |
| Plant.Simulation.constructor | main.py:270-289 | the world starts at generation 0 with the requested number of newly generated trees |
| Plant.Simulation.Tick | main.py:540-542 | stepping every tree in turn ends, keeps the world well formed, never lowers the generation, and leaves only old or new trees in the list |
| Plant.Simulation.StepAt | main.py:541-542 | one pass of the loop leaves less work behind it than before it |
| ShowRules.GeneOf | show.py:74 | a cell's record is the genome entry its index names |
| ShowRules.Target | show.py:75-86 | a direction's target exists exactly when the neighbour square is on the closed grid, and is that neighbour |
| ShowRules.TargetGeometry | show.py:75-86 | a target is on the grid and one square up, down, left or right |
| ShowRules.TargetsDistinct | show.py:75-80 | two directions never aim at the same square |
| ShowRules.Opening | show.py:83-87 | a direction is open exactly when its outcome is not blocked, its target is on the grid and the tree holds no cell there |
| ShowRules.CanGrowMeans | show.py:82-88 | `can_grow` holds exactly when some direction is open |
| ShowRules.SproutsCount | show.py:82-91 | at most one child per direction, and some child exactly when a direction is open |
| ShowRules.SproutsCells | show.py:89-91 | each child is Growing with no energy, grown from an open direction with the index that direction names |
| ShowRules.SproutsPlaces | show.py:82-91 | one cell's children are on different free squares of the grid |
| ShowRules.TryFromSnapshot | show.py:82-91 | the checks, which see the children appended in the same turn, decide as they would on the list before the turn |
| ShowRules.GrowCell | show.py:73 | a Grown cell's turn changes nothing |
| ShowRules.GrowCellCases | show.py:70-98 | a turn changes nothing for a Grown or poor cell, settles a cell that cannot grow, and pays for and extends by the children of a rich cell that can |
| ShowRules.GrowCellShape | show.py:70-98 | a turn appends at most four fresh cells and changes no other cell |
| ShowRules.GrowFrom | show.py:68-98 | the grow pass only lengthens the list and keeps every index a gene record |
| ShowRules.GrowFromShape | show.py:68-98 | the pass keeps places and indices, leaves Grown cells untouched, changes energy only by paying once, and appends cells without energy |
| ShowRules.GrowFromNonnegative | show.py:89-94 | no cell goes into debt |
| ShowRules.GrowCellSpread | show.py:86-90 | a turn keeps the cells on pairwise different squares |
| ShowRules.GrowCellBounds | show.py:86 | a turn keeps the tree on the grid |
| ShowRules.GrowFromPlaces | show.py:68-98 | the grow pass keeps the cells on different squares of the grid |
| ShowRules.GrowFromSettles | show.py:68-98 | with no cell able to pay, every Growing cell settles as Grown exactly when it cannot grow, and nothing moves |
| ShowRules.GrowChildrenSettle | show.py:69-98 | the children appended during a pass take their own turn in it, hold no energy and end Grown exactly when they cannot grow |
| ShowRules.Illuminate | show.py:114-116 | lighting keeps the number of cells |
| ShowRules.IlluminateFacts | show.py:114-116 | lighting keeps places, states and indices, adds between 0 and 3 * 16 to each cell on the grid, and nothing to a cell with three of the tree's cells above it |
| Show.DefaultGenome | show.py:227-228 | the default genome is 16 records `[0, 1, 2, 3]` |
| Show.ChosenGenome | show.py:226-228 | no file gives the default; an unreadable file is an error; an empty file gives the default; any other file gives its genome |
| Show.ShowsSaved | show.py:141 | the viewer shows exactly the genome a file saved with `main.py`'s format holds |
| Show.EmptyFileDefault | show.py:227-228 | an empty file falls back to the default genome |
| Show.SteppedSound | show.py:118-123 | a step keeps cells on different squares of the grid and out of debt, keeps every old cell's place and index, and leaves no Grown cell with energy |
| Show.FirstLight | show.py:230-232 | the seed starts at column 40 of the ground row with exactly the 18 units growth costs |
| Show.Tree.constructor | show.py:61-66 | a new tree has no cells, 300 energy and zero income and outlay |
| Show.Tree.GrowTree | show.py:68-98 | the cell list becomes the grow pass of the old list |
| Show.Tree.GrowTurn | show.py:69-98 | one cell's turn is `GrowCell` |
| Show.Tree.TryDirections | show.py:82-91 | the direction loop gives the two flags and the list of the four-direction attempt |
| Show.Tree.TryDirection | show.py:83-91 | one direction of the loop is one attempt step |
| Show.Tree.AddCell | show.py:100-101 | the new cell, without energy, joins the end of the list |
| Show.Tree.HowMuchUpper | show.py:45-50 | the loop counts the tree's cells above the square |
| Show.Tree.UpdateCells | show.py:114-116 | the cell list becomes its lighting |
| Show.Tree.LightCell | show.py:52-57 | one cell's `update_energy` writes the lit cell at its index |
| Show.Tree.UpdateEnergy | show.py:103-107 | income is the Grown cells' energy, which is zeroed; outlay is 13 per cell; energy changes by their difference |
| Show.Tree.DellCellsEnergy | show.py:109-112 | the Grown cells' energy is zeroed and nothing else changes |
| Show.Tree.Step | show.py:118-123 | the cells become the grown, lit and settled list, the ledger is updated, and a sound tree stays sound |
| Show.Start | show.py:222-232 | the viewer's tree has the chosen genome, its one seed cell lit with 18 units, 300 energy and a sound cell list |

## Left out

- Drawing, the window, buttons, fonts, the file dialogs, file reading and writing, and the frame delay: the model takes a file's text as a string and has no screen.
- Randomness: every `random.randint` and `random.random` is an explicit draw record. The draw's `fires` flag is true exactly when `random.random() > chance` does not hold, that is, when the mutation or the die-age jitter happens.
- The `level` and `last_energy` fields and `gen_number`: they only feed the display. The light level is computed where it is used, so `show.py`'s stored `level` is not a field of the model either.
- The genome colour: it is an opaque entry after the 16 records, copied or drawn, and never drawn on screen.
- `copy.deepcopy` in `check_death`: genomes are values, so the copy is the value itself.
- The cell's back-references to its tree and to the simulation: the methods take the simulation as a parameter.
- Genomes whose first 16 entries are not records of exactly four outcomes, each in 0 to 15 or 30: a well-formed genome is a precondition of building a tree. The source does not check this when loading. Some such genomes run silently: only the first four entries of a longer record are read, and a negative outcome indexes from the end of the genome through Python's negative indexing. Others raise an index error later. The model excludes all of them.
- `main.py:419` line 16: it makes the colour line a tuple and the others lists. The model loads every line as a sequence.
- Parse failures: `int` raising on a bad field becomes `None`.
- GenomeText.ParseInt: reads only the ASCII digits 0 to 9. Python's `int` also reads every other Unicode decimal digit (`int("\u0663") == 3`), so a file holding such digits loads in Python and fails to load in the model, and `GenomeText.Load` and `Show.ChosenGenome` inherit that difference.
- `Show.Tree.constructor` takes the genome that `main()` assigns right after `Tree()` at `show.py:226-228`.
- Plant.Simulation.Tick: its contract states only validity, a generation that never goes down, and that the list holds old or new trees; the state after a whole tick is described tree by tree by `Plant.Tree.Step`.
- Plant.Tree.SeedAt: the model removes the cell before adding its child. The child is built from the cell's coordinates, so the order changes nothing observable.
- `Simulation` selection, saving and loading through the mouse (`load_genome`'s placement loop), `draw_genome`, and the speed and pause settings: these are user interface.

## Behaviour of the code worth knowing

The model follows the code on these points:

- The mutation chance is a fixed 0.25, not scaled by energy.
- The sun level stays 6.
- Occupancy is a linear scan over every tree, with no grid index.
- A new tree is not checked against the squares already taken. The trees of the starting world, and a seed of a cell in column 0 (`if x and y` treats 0 as missing), go to a random column of the ground row, which another tree may hold. The model proves that growth and falling keep squares distinct, but not birth.
- A Dying tree whose last cells seed in one step stays in the list, empty, until its next step removes it.
- A cell that can neither fall nor rests on the ground row is removed whatever lies beneath it.
- An Alive tree can be both sent to Dying and culled as a lone cell in the same step.
