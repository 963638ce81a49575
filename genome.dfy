/** Genome (main.py `Tree.generate_gen`, `Tree.mutate`, `Tree.mutate_die_age`): a tree's
    genome is a list whose first 16 entries are gene records [Up, Left, Right, Down];
    every outcome is either Blocked or the index of the gene record a child cell grown
    in that direction uses. Entry 16 onwards hold colours. */
module Genome {

  /** The outcome that forbids growth in a direction. */
  const Blocked := 30
  /** Number of gene records in a genome. */
  const GeneCount := 16
  /** Highest gene index an outcome can name. */
  const MaxGene := 15

  type Gene = seq<int>

  predicate IsOutcome(v: int)
  {
    0 <= v <= MaxGene || v == Blocked
  }

  /** A gene record: four outcomes, one per direction. */
  predicate ValidGene(g: seq<int>)
  {
    |g| == 4 && forall d :: 0 <= d < 4 ==> IsOutcome(g[d])
  }

  /** The first 16 entries of `genome` are gene records (later entries are not looked at). */
  predicate ValidGenes(genome: seq<seq<int>>)
  {
    |genome| >= GeneCount && forall k :: 0 <= k < GeneCount ==> ValidGene(genome[k])
  }

  function Min(a: int, b: int): int
  {
    if a <= b then a else b
  }

  /** How a single draw of `randint(0, 31)` becomes an outcome. */
  function Roll(num: int): int
  {
    if num <= MaxGene then num else Blocked
  }

  function RollAll(rolls: seq<int>): (r: seq<int>)
    ensures |r| == |rolls|
  {
    seq(|rolls|, k requires 0 <= k < |rolls| => Roll(rolls[k]))
  }

  /** `list.count(30)`. */
  function CountBlocked(s: seq<int>): (r: nat)
    ensures r <= |s|
  {
    if s == [] then 0 else (if s[0] == Blocked then 1 else 0) + CountBlocked(s[1..])
  }

  /** `list.index(30)`: the first position holding Blocked. */
  function FirstBlocked(s: seq<int>): (r: nat)
    requires CountBlocked(s) > 0
    ensures r < |s| && s[r] == Blocked
    ensures forall k :: 0 <= k < r ==> s[k] != Blocked
  {
    if s[0] == Blocked then 0 else 1 + FirstBlocked(s[1..])
  }

  /** Overwriting one Blocked outcome with a gene index removes one Blocked. */
  lemma {:induction false} CountBlockedReplace(s: seq<int>, i: nat, v: int)
    requires i < |s| && s[i] == Blocked && v != Blocked
    ensures CountBlocked(s[i := v]) == CountBlocked(s) - 1
    decreases |s|
  {
    if i > 0 {
      assert s[i := v][1..] == s[1..][i - 1 := v];
      CountBlockedReplace(s[1..], i - 1, v);
    } else {
      assert s[i := v][1..] == s[1..];
    }
  }

  /** Counting the Blocked outcomes of a prefix one position further. */
  lemma {:induction false} CountBlockedSnoc(s: seq<int>, j: nat)
    requires j < |s|
    ensures CountBlocked(s[..j + 1]) == CountBlocked(s[..j]) + (if s[j] == Blocked then 1 else 0)
    decreases j
  {
    if j > 0 {
      assert s[..j + 1][1..] == s[1..][..j] && s[..j][1..] == s[1..][..j - 1];
      CountBlockedSnoc(s[1..], j - 1);
    }
  }

  /** A Blocked outcome raises the count of every longer prefix. */
  lemma {:induction false} CountBlockedPast(s: seq<int>, d: nat, e: nat)
    requires d < e <= |s| && s[d] == Blocked
    ensures CountBlocked(s[..e]) > CountBlocked(s[..d])
    decreases e
  {
    CountBlockedSnoc(s, e - 1);
    if d < e - 1 {
      CountBlockedPast(s, d, e - 1);
    }
  }

  /** Every draw a gene needs: four `randint(0, 31)` and, for gene 0, up to two
      `randint(0, 15)` re-rolls. */
  predicate ValidRolls(rolls: seq<int>, rerolls: seq<int>)
  {
    |rolls| == 4 && (forall k :: 0 <= k < 4 ==> 0 <= rolls[k] <= 31) &&
    |rerolls| == 2 && (forall k :: 0 <= k < 2 ==> 0 <= rerolls[k] <= MaxGene)
  }

  /** `generate_gen(index)`: four outcomes from the draws; for gene 0, while more than two
      are Blocked, the leftmost Blocked one is replaced by the next re-roll. */
  method GenerateGen(index: int, rolls: seq<int>, rerolls: seq<int>) returns (gene: seq<int>)
    requires ValidRolls(rolls, rerolls)
    ensures ValidGene(gene)
    ensures index != 0 ==> gene == RollAll(rolls)
    ensures index == 0 ==> CountBlocked(gene) == Min(CountBlocked(RollAll(rolls)), 2)
    ensures forall d :: 0 <= d < 4 && gene[d] != RollAll(rolls)[d] ==>
      index == 0 && RollAll(rolls)[d] == Blocked && CountBlocked(RollAll(rolls)[..d]) < 2 &&
      gene[d] == rerolls[CountBlocked(RollAll(rolls)[..d])]
    ensures forall d, d' :: 0 <= d < d' < 4 && RollAll(rolls)[d] == Blocked && gene[d] == Blocked ==>
      gene[d'] == RollAll(rolls)[d']
  {
    var result: seq<int> := [];
    for i := 0 to 4
      invariant result == RollAll(rolls)[..i]
    {
      var num := rolls[i];
      if num <= MaxGene {
        result := result + [num];
      } else {
        result := result + [Blocked];
      }
    }
    ghost var base := result;
    assert base == RollAll(rolls);
    if index == 0 {
      var count := CountBlocked(result);
      var used := 0;
      while count > 2
        invariant |result| == 4 && forall d :: 0 <= d < 4 ==> IsOutcome(result[d])
        invariant count == CountBlocked(result) && used == CountBlocked(base) - count
        invariant 0 <= used <= 2 && (used > 0 ==> count >= 2)
        invariant forall d :: 0 <= d < 4 && base[d] == Blocked ==>
          (result[d] != Blocked <==> CountBlocked(base[..d]) < used)
        invariant forall d :: 0 <= d < 4 && result[d] != base[d] ==>
          base[d] == Blocked && CountBlocked(base[..d]) < used && result[d] == rerolls[CountBlocked(base[..d])]
        invariant forall d, d' :: 0 <= d < d' < 4 && base[d] == Blocked && result[d] == Blocked ==>
          result[d'] == base[d']
      {
        var at := FirstBlocked(result);
        assert base[at] == Blocked;
        forall d | 0 <= d < 4 && d != at && base[d] == Blocked
          ensures CountBlocked(base[..d]) != used
        {
          if d < at { CountBlockedPast(base, d, at); } else { CountBlockedPast(base, at, d); }
        }
        CountBlockedReplace(result, at, rerolls[used]);
        result := result[at := rerolls[used]];
        count := count - 1;
        used := used + 1;
      }
    }
    gene := result;
  }

  // ---------------------------------------------------------------------------
  // Mutation

  /** The draws of one `mutate` call: `fires` is true when `random.random() > chance`
      does not hold; `gene`, `position` and `value` are the three `randint` results. */
  datatype MutationDraw = MutationDraw(fires: bool, gene: int, position: int, value: int)

  predicate ValidMutationDraw(d: MutationDraw)
  {
    0 <= d.gene < GeneCount && 0 <= d.position < 4 && 0 <= d.value <= MaxGene
  }

  /** `mutate(genome)`: with the draw firing, one outcome of one gene record is overwritten
      with a gene index and the first 16 entries are returned with flag 1; otherwise the
      genome comes back as it was with flag 0. The source works on a deep copy, so doing the
      overwrite on a value loses nothing. */
  function Mutate(genome: seq<seq<int>>, d: MutationDraw): (r: (seq<seq<int>>, int))
    requires ValidGenes(genome) && ValidMutationDraw(d)
    ensures ValidGenes(r.0)
    ensures r.1 == 1 <==> d.fires
    ensures r.1 == 0 || r.1 == 1
    ensures !d.fires ==> r.0 == genome
    ensures d.fires ==> |r.0| == GeneCount && r.0[d.gene][d.position] == d.value
    ensures d.fires ==> forall g :: 0 <= g < GeneCount ==> |r.0[g]| == |genome[g]|
    ensures d.fires ==> forall g, p ::
      0 <= g < GeneCount && 0 <= p < |genome[g]| && (g != d.gene || p != d.position) ==>
        r.0[g][p] == genome[g][p]
  {
    if !d.fires then (genome, 0)
    else
      var mutated := genome[d.gene := genome[d.gene][d.position := d.value]];
      (mutated[..GeneCount], 1)
  }

  /** The draws of one `mutate_die_age` call: whether it fires and the `randint(0, 1)`. */
  datatype JitterDraw = JitterDraw(fires: bool, pom: int)

  predicate ValidJitterDraw(d: JitterDraw)
  {
    d.pom == 0 || d.pom == 1
  }

  /** `mutate_die_age(age)`: with the draw firing the age moves one step, up on 0 and down
      on 1; otherwise it is returned as it was. */
  function MutateDieAge(age: int, d: JitterDraw): (r: int)
    requires ValidJitterDraw(d)
    ensures age - 1 <= r <= age + 1
    ensures r != age <==> d.fires
    ensures d.fires ==> (r > age <==> d.pom == 0)
  {
    if !d.fires then age
    else if d.pom == 0 then age + 1
    else age - 1
  }
}
