/** The generational loop: evaluate the population, record the best ever,
    select parents on the wheel, breed them pairwise with crossover and
    mutation, and replace the population. Every random choice of a
    generation is part of its GenerationDraws. */
module Evolution {
  import opened Codec
  import opened Parameters
  import opened Fitness
  import opened Population
  import opened Selection
  import opened Variation
  import opened Sequences

  datatype Option<T> = None | Some(value: T)

  /** Index of the first scored individual of greatest fitness (what `max`
      with a fitness key returns: it keeps the earliest among equals). */
  function FirstMaxIndex(scores: seq<Scored>): (i: nat)
    requires |scores| > 0
    ensures i < |scores|
    ensures forall j :: 0 <= j < |scores| ==> scores[j].1 <= scores[i].1
    ensures forall j :: 0 <= j < i ==> scores[j].1 < scores[i].1
  {
    if |scores| == 1 then 0
    else
      var k := FirstMaxIndex(scores[..|scores| - 1]);
      if scores[|scores| - 1].1 > scores[k].1 then |scores| - 1 else k
  }

  function BestOf(scores: seq<Scored>): Scored
    requires |scores| > 0
  {
    scores[FirstMaxIndex(scores)]
  }

  /** The best-ever record after seeing a generation's best; None stands for
      the initial record of fitness minus infinity. */
  function UpdateBest(best: Option<Scored>, candidate: Scored): (updated: Option<Scored>)
    ensures updated.Some?
    ensures updated == best || updated == Some(candidate)
    ensures best.Some? ==> updated.value.1 >= best.value.1 && updated.value.1 >= candidate.1
    ensures best.Some? && candidate.1 == best.value.1 ==> updated == best
  {
    if best.None? || candidate.1 > best.value.1 then Some(candidate) else best
  }

  /** Any index that is a first maximum is the first maximum. */
  lemma FirstMaxUnique(scores: seq<Scored>, i: nat)
    requires i < |scores|
    requires forall j :: 0 <= j < |scores| ==> scores[j].1 <= scores[i].1
    requires forall j :: 0 <= j < i ==> scores[j].1 < scores[i].1
    ensures FirstMaxIndex(scores) == i
  {
  }

  /** Folding a later batch into the record of an earlier one gives the first
      maximum of both batches together: replacing only on strict improvement
      keeps the earliest-seen individual of greatest fitness. */
  lemma UpdateBestIsFirstMax(earlier: seq<Scored>, later: seq<Scored>)
    requires |later| > 0
    ensures UpdateBest(if |earlier| == 0 then None else Some(BestOf(earlier)), BestOf(later))
         == Some(BestOf(earlier + later))
  {
    var all := earlier + later;
    var i2 := FirstMaxIndex(later);
    if |earlier| == 0 {
      assert all == later;
    } else {
      var i1 := FirstMaxIndex(earlier);
      if later[i2].1 > earlier[i1].1 {
        forall j | 0 <= j < |all|
          ensures all[j].1 <= all[|earlier| + i2].1
          ensures j < |earlier| + i2 ==> all[j].1 < all[|earlier| + i2].1
        {
          if j >= |earlier| {
            assert all[j] == later[j - |earlier|];
          }
        }
        FirstMaxUnique(all, |earlier| + i2);
      } else {
        forall j | 0 <= j < |all|
          ensures all[j].1 <= all[i1].1
        {
          if j >= |earlier| {
            assert all[j] == later[j - |earlier|];
          }
        }
        FirstMaxUnique(all, i1);
      }
    }
  }

  /** What one round of breeding consumes: one crossover point per pair of
      consecutive parents (within the pair's common length) and one draw per
      bit of every child. */
  predicate BreedInputs(parents: seq<string>, points: seq<nat>, flips: seq<seq<real>>)
    decreases |parents|
  {
    && |flips| == |parents|
    && if |parents| == 0 then |points| == 0
       else if |parents| == 1 then |points| == 0 && |flips[0]| == |parents[0]|
       else
         && |points| > 0
         && |parents[0]| == |parents[1]| && 1 <= points[0] < |parents[0]|
         && |flips[0]| == |parents[0]| && |flips[1]| == |parents[1]|
         && BreedInputs(parents[2..], points[1..], flips[2..])
  }

  /** One point per pair of parents and one draw sequence per parent. */
  lemma {:induction false} BreedInputsCounts(parents: seq<string>, points: seq<nat>, flips: seq<seq<real>>)
    requires BreedInputs(parents, points, flips)
    ensures 2 * |points| <= |parents| <= 2 * |points| + 1 && |flips| == |parents|
    decreases |parents|
  {
    if |parents| >= 2 {
      BreedInputsCounts(parents[2..], points[1..], flips[2..]);
    }
  }

  /** Parents of one common length, points inside it and one draw per bit
      make well-formed breeding inputs. */
  lemma {:induction false} UniformBreedInputs(parents: seq<string>, points: seq<nat>, flips: seq<seq<real>>, length: nat)
    requires forall j :: 0 <= j < |parents| ==> |parents[j]| == length
    requires forall k :: 0 <= k < |points| ==> 1 <= points[k] < length
    requires 2 * |points| <= |parents| <= 2 * |points| + 1
    requires |flips| == |parents| && forall j :: 0 <= j < |flips| ==> |flips[j]| == length
    ensures BreedInputs(parents, points, flips)
    decreases |parents|
  {
    if |parents| >= 2 {
      UniformBreedInputs(parents[2..], points[1..], flips[2..], length);
    }
  }

  /** The children of a round of breeding: parents 0 and 1 are crossed and
      both children mutated, then the same for the rest of the parents; an
      unpaired last parent is only mutated. */
  function Offspring(parents: seq<string>, points: seq<nat>, flips: seq<seq<real>>): (children: seq<string>)
    requires BreedInputs(parents, points, flips)
    ensures |children| == |parents|
    decreases |parents|
  {
    if |parents| == 0 then []
    else if |parents| == 1 then [Mutation(parents[0], MUTATION_RATE, flips[0])]
    else
      var (child1, child2) := Crossover(parents[0], parents[1], points[0]);
      [Mutation(child1, MUTATION_RATE, flips[0]), Mutation(child2, MUTATION_RATE, flips[1])]
        + Offspring(parents[2..], points[1..], flips[2..])
  }

  /** Breeding is pairwise: the children from position 2k on are the
      children of breeding the parents from 2k on, with the points from k on. */
  lemma {:induction false} OffspringSuffix(parents: seq<string>, points: seq<nat>, flips: seq<seq<real>>, k: nat)
    requires BreedInputs(parents, points, flips) && k <= |points|
    ensures 2 * k <= |parents| == |flips|
    ensures BreedInputs(parents[2 * k..], points[k..], flips[2 * k..])
    ensures Offspring(parents, points, flips)[2 * k..] == Offspring(parents[2 * k..], points[k..], flips[2 * k..])
    decreases k
  {
    if k > 0 {
      OffspringSuffix(parents[2..], points[1..], flips[2..], k - 1);
      assert parents[2..][2 * (k - 1)..] == parents[2 * k..];
      assert points[1..][k - 1..] == points[k..];
      assert flips[2..][2 * (k - 1)..] == flips[2 * k..];
      var children := Offspring(parents, points, flips);
      assert children[2..] == Offspring(parents[2..], points[1..], flips[2..]);
      assert children[2..][2 * (k - 1)..] == children[2 * k..];
    }
  }

  /** The k-th pair is parents 2k and 2k+1, with the k-th point, and children
      2k and 2k+1 are their crossed children, mutated. */
  lemma OffspringOfPair(parents: seq<string>, points: seq<nat>, flips: seq<seq<real>>, k: nat)
    requires BreedInputs(parents, points, flips) && k < |points|
    ensures 2 * k + 1 < |parents| && |parents[2 * k]| == |parents[2 * k + 1]| && 1 <= points[k] < |parents[2 * k]|
    ensures |flips[2 * k]| == |parents[2 * k]| && |flips[2 * k + 1]| == |parents[2 * k + 1]|
    ensures Offspring(parents, points, flips)[2 * k]
         == Mutation(Crossover(parents[2 * k], parents[2 * k + 1], points[k]).0, MUTATION_RATE, flips[2 * k])
    ensures Offspring(parents, points, flips)[2 * k + 1]
         == Mutation(Crossover(parents[2 * k], parents[2 * k + 1], points[k]).1, MUTATION_RATE, flips[2 * k + 1])
  {
    OffspringSuffix(parents, points, flips, k);
    var rest := parents[2 * k..];
    assert rest[0] == parents[2 * k] && rest[1] == parents[2 * k + 1];
    assert points[k..][0] == points[k];
    assert flips[2 * k..][0] == flips[2 * k] && flips[2 * k..][1] == flips[2 * k + 1];
    var children := Offspring(parents, points, flips);
    assert children[2 * k] == children[2 * k..][0] && children[2 * k + 1] == children[2 * k..][1];
  }

  /** With an odd number of parents the last child is the last parent,
      mutated. */
  lemma OffspringOfLeftover(parents: seq<string>, points: seq<nat>, flips: seq<seq<real>>)
    requires BreedInputs(parents, points, flips) && |parents| == 2 * |points| + 1
    ensures |flips[|parents| - 1]| == |parents[|parents| - 1]|
    ensures Offspring(parents, points, flips)[|parents| - 1]
         == Mutation(parents[|parents| - 1], MUTATION_RATE, flips[|parents| - 1])
  {
    var k := |points|;
    OffspringSuffix(parents, points, flips, k);
    assert parents[2 * k..][0] == parents[2 * k] && flips[2 * k..][0] == flips[2 * k];
    var children := Offspring(parents, points, flips);
    assert children[2 * k] == children[2 * k..][0];
  }

  /** Without mutation, the children of pair k hold, position by position,
      the two bits of parents 2k and 2k+1 in some order. */
  lemma PairRecombines(parents: seq<string>, points: seq<nat>, flips: seq<seq<real>>, k: nat)
    requires BreedInputs(parents, points, flips) && k < |points|
    requires forall j, i :: 0 <= j < |flips| && 0 <= i < |flips[j]| ==> MUTATION_RATE <= flips[j][i]
    ensures 2 * k + 1 < |parents| && |parents[2 * k]| == |parents[2 * k + 1]|
    ensures |Offspring(parents, points, flips)[2 * k]| == |Offspring(parents, points, flips)[2 * k + 1]| == |parents[2 * k]|
    ensures forall i :: 0 <= i < |parents[2 * k]| ==>
      multiset{Offspring(parents, points, flips)[2 * k][i], Offspring(parents, points, flips)[2 * k + 1][i]}
        == multiset{parents[2 * k][i], parents[2 * k + 1][i]}
  {
    OffspringOfPair(parents, points, flips, k);
    var (c1, c2) := Crossover(parents[2 * k], parents[2 * k + 1], points[k]);
    MutationWithoutFlips(c1, MUTATION_RATE, flips[2 * k]);
    MutationWithoutFlips(c2, MUTATION_RATE, flips[2 * k + 1]);
    CrossoverPositions(parents[2 * k], parents[2 * k + 1], points[k]);
  }

  /** Without mutation, an unpaired last parent passes on unchanged. */
  lemma LeftoverPassesOn(parents: seq<string>, points: seq<nat>, flips: seq<seq<real>>)
    requires BreedInputs(parents, points, flips) && |parents| == 2 * |points| + 1
    requires forall j, i :: 0 <= j < |flips| && 0 <= i < |flips[j]| ==> MUTATION_RATE <= flips[j][i]
    ensures Offspring(parents, points, flips)[|parents| - 1] == parents[|parents| - 1]
  {
    var last := |parents| - 1;
    OffspringOfLeftover(parents, points, flips);
    MutationWithoutFlips(parents[last], MUTATION_RATE, flips[last]);
  }

  /** Appending the children of the pair at i to the first i children gives
      the first i + 2. */
  lemma PairStep(parents: seq<string>, points: seq<nat>, flips: seq<seq<real>>, i: nat, pair: nat,
                 prefix: seq<string>, child1: string, child2: string)
    requires BreedInputs(parents, points, flips) && i == 2 * pair && pair < |points|
    requires 2 * pair + 1 < |parents| && |parents[2 * pair]| == |parents[2 * pair + 1]| && 1 <= points[pair] < |parents[2 * pair]|
    requires |flips[2 * pair]| == |parents[2 * pair]| && |flips[2 * pair + 1]| == |parents[2 * pair + 1]|
    requires prefix == Offspring(parents, points, flips)[..i]
    requires child1 == Mutation(Crossover(parents[i], parents[i + 1], points[pair]).0, MUTATION_RATE, flips[i])
    requires child2 == Mutation(Crossover(parents[i], parents[i + 1], points[pair]).1, MUTATION_RATE, flips[i + 1])
    ensures prefix + [child1, child2] == Offspring(parents, points, flips)[..i + 2]
  {
    OffspringOfPair(parents, points, flips, pair);
    var children := Offspring(parents, points, flips);
    PrefixGrowsByPair(children, i);
  }

  /** Appending the mutated last parent to the children before it gives all
      the children. */
  lemma LeftoverStep(parents: seq<string>, points: seq<nat>, flips: seq<seq<real>>, i: nat,
                     prefix: seq<string>, child: string)
    requires BreedInputs(parents, points, flips) && |parents| == 2 * |points| + 1 && i + 1 == |parents|
    requires |flips[i]| == |parents[i]|
    requires prefix == Offspring(parents, points, flips)[..i]
    requires child == Mutation(parents[i], MUTATION_RATE, flips[i])
    ensures prefix + [child] == Offspring(parents, points, flips)[..i + 1]
  {
    OffspringOfLeftover(parents, points, flips);
    PrefixGrowsByOne(Offspring(parents, points, flips), i);
  }

  /** One pair of parents: cross them, then mutate both children. */
  method BreedPair(parent1: string, parent2: string, point: nat, flips1: seq<real>, flips2: seq<real>)
    returns (child1: string, child2: string)
    requires |parent1| == |parent2| && 1 <= point < |parent1|
    requires |flips1| == |parent1| && |flips2| == |parent2|
    ensures child1 == Mutation(Crossover(parent1, parent2, point).0, MUTATION_RATE, flips1)
    ensures child2 == Mutation(Crossover(parent1, parent2, point).1, MUTATION_RATE, flips2)
  {
    var (crossed1, crossed2) := Crossover(parent1, parent2, point);
    child1 := Mutate(crossed1, MUTATION_RATE, flips1);
    child2 := Mutate(crossed2, MUTATION_RATE, flips2);
  }

  /** One turn of the breeding loop at parent i: a pair is crossed and
      both children mutated, an unpaired last parent only mutated. */
  method BreedAt(parents: seq<string>, points: seq<nat>, flips: seq<seq<real>>, i: nat, pair: nat, prefix: seq<string>)
    returns (grown: seq<string>)
    requires BreedInputs(parents, points, flips) && 2 * |points| <= |parents| <= 2 * |points| + 1
    requires i == 2 * pair && i < |parents|
    requires prefix == Offspring(parents, points, flips)[..i]
    ensures grown == Offspring(parents, points, flips)[..Min(i + 2, |parents|)]
  {
    if i + 1 < |parents| {
      OffspringOfPair(parents, points, flips, pair);
      var child1, child2 := BreedPair(parents[i], parents[i + 1], points[pair], flips[i], flips[i + 1]);
      PairStep(parents, points, flips, i, pair, prefix, child1, child2);
      grown := prefix + [child1, child2];
    } else {
      OffspringOfLeftover(parents, points, flips);
      var child := Mutate(parents[i], MUTATION_RATE, flips[i]);
      LeftoverStep(parents, points, flips, i, prefix, child);
      grown := prefix + [child];
    }
  }

  /** Breeding (the body of one generation after selection): children of
      consecutive pairs, the odd last parent carried forward mutated, the
      result cut to POPULATION_SIZE. */
  method Reproduce(parents: seq<string>, points: seq<nat>, flips: seq<seq<real>>) returns (newPopulation: seq<string>)
    requires BreedInputs(parents, points, flips)
    ensures |newPopulation| == Min(|parents|, POPULATION_SIZE)
    ensures newPopulation == Take(Offspring(parents, points, flips), POPULATION_SIZE)
  {
    ghost var children := Offspring(parents, points, flips);
    BreedInputsCounts(parents, points, flips);
    newPopulation := [];
    var i, pair := 0, 0;
    while i < |parents|
      invariant i == 2 * pair && i <= |parents| + 1
      invariant newPopulation == children[..Min(i, |parents|)]
    {
      newPopulation := BreedAt(parents, points, flips, i, pair, newPopulation);
      i, pair := i + 2, pair + 1;
    }
    assert newPopulation == children;
    newPopulation := Take(newPopulation, POPULATION_SIZE);
  }

  /** The random inputs of one generation: wheel draws in [0, 360], one
      crossover point per pair, one mutation draw per bit of each child. */
  datatype GenerationDraws = GenerationDraws(wheel: seq<real>, points: seq<nat>, flips: seq<seq<real>>)

  predicate DrawsFit(d: GenerationDraws) {
    && |d.wheel| == POPULATION_SIZE
    && (forall k :: 0 <= k < |d.wheel| ==> 0.0 <= d.wheel[k] <= 360.0)
    && |d.points| == POPULATION_SIZE / 2
    && (forall k :: 0 <= k < |d.points| ==> 1 <= d.points[k] < CHROMOSOME_LENGTH)
    && |d.flips| == POPULATION_SIZE
    && (forall j :: 0 <= j < |d.flips| ==> |d.flips[j]| == CHROMOSOME_LENGTH)
  }

  predicate ValidPopulation(population: seq<string>) {
    |population| == POPULATION_SIZE && forall i :: 0 <= i < |population| ==> IsChromosome(population[i])
  }

  /** The state carried from one generation to the next. */
  datatype GAState = GAState(population: seq<string>, best: Option<Scored>)

  /** The coin tosses of initialisation: one per bit of every chromosome. */
  predicate TossesFit(tosses: seq<seq<bool>>) {
    |tosses| == POPULATION_SIZE && forall i :: 0 <= i < |tosses| ==> |tosses[i]| == CHROMOSOME_LENGTH
  }

  function Start(tosses: seq<seq<bool>>): (state: GAState)
    requires TossesFit(tosses)
    ensures ValidPopulation(state.population) && state.best.None?
  {
    GAState(seq(POPULATION_SIZE, i requires 0 <= i < POPULATION_SIZE => BitsOf(tosses[i])), None)
  }

  /** Spinning the wheel of a valid population with draws in [0, 360]
      selects one chromosome per draw. */
  lemma SpinKeepsChromosomes(population: seq<string>, f: Objective, wheel: seq<real>)
    requires ValidPopulation(population) && Positive(f)
    requires forall k :: 0 <= k < |wheel| ==> 0.0 <= wheel[k] <= 360.0
    ensures WheelReady(Scores(population, f))
    ensures |Spin(Scores(population, f), wheel)| == |wheel|
    ensures forall j :: 0 <= j < |wheel| ==> IsChromosome(Spin(Scores(population, f), wheel)[j])
  {
    var scores := Scores(population, f);
    ScoresInOrder(population, f);
    SpinSelectsOnePerDraw(scores, wheel);
    forall j | 0 <= j < |wheel|
      ensures IsChromosome(Spin(scores, wheel)[j])
    {
      var i := FirstReaching(WheelBounds(scores), wheel[j]);
      assert Spin(scores, wheel)[j] == population[i];
    }
  }

  /** Selection from a valid population with fitting draws yields as many
      chromosomes as draws, ready to be paired for breeding. */
  lemma SelectionBreeds(population: seq<string>, f: Objective, d: GenerationDraws)
    requires ValidPopulation(population) && Positive(f) && DrawsFit(d)
    ensures WheelReady(Scores(population, f))
    ensures |Spin(Scores(population, f), d.wheel)| == POPULATION_SIZE
    ensures forall j :: 0 <= j < POPULATION_SIZE ==> IsChromosome(Spin(Scores(population, f), d.wheel)[j])
    ensures BreedInputs(Spin(Scores(population, f), d.wheel), d.points, d.flips)
  {
    SpinKeepsChromosomes(population, f, d.wheel);
    UniformBreedInputs(Spin(Scores(population, f), d.wheel), d.points, d.flips, CHROMOSOME_LENGTH);
  }

  /** Breeding the selected parents of a valid population gives a valid
      population again: as many children as parents, all chromosomes. */
  lemma NextPopulationValid(population: seq<string>, f: Objective, d: GenerationDraws)
    requires ValidPopulation(population) && Positive(f) && DrawsFit(d)
    ensures |Scores(population, f)| > 0
    ensures BreedInputs(Spin(Scores(population, f), d.wheel), d.points, d.flips)
    ensures ValidPopulation(Take(Offspring(Spin(Scores(population, f), d.wheel), d.points, d.flips), POPULATION_SIZE))
  {
    SelectionBreeds(population, f, d);
    var parents := Spin(Scores(population, f), d.wheel);
    ChildrenAreChromosomes(parents, d.points, d.flips);
    TakeAll(Offspring(parents, d.points, d.flips), POPULATION_SIZE);
  }

  /** One generation: record the best of the evaluated population, spin the
      wheel once per draw and breed the selected parents. */
  function Step(state: GAState, d: GenerationDraws, f: Objective): (next: GAState)
    requires ValidPopulation(state.population) && Positive(f) && DrawsFit(d)
    ensures ValidPopulation(next.population)
    ensures next.best.Some?
    ensures state.best.Some? ==> next.best.value.1 >= state.best.value.1
  {
    NextPopulationValid(state.population, f, d);
    var scores := Scores(state.population, f);
    GAState(Take(Offspring(Spin(scores, d.wheel), d.points, d.flips), POPULATION_SIZE), UpdateBest(state.best, BestOf(scores)))
  }

  /** Each child has its parent's length, and bit-string parents have
      bit-string children. */
  lemma {:induction false} OffspringShape(parents: seq<string>, points: seq<nat>, flips: seq<seq<real>>)
    requires BreedInputs(parents, points, flips)
    ensures forall j :: 0 <= j < |parents| ==> |Offspring(parents, points, flips)[j]| == |parents[j]|
    ensures (forall j :: 0 <= j < |parents| ==> IsBits(parents[j])) ==>
      forall j :: 0 <= j < |parents| ==> IsBits(Offspring(parents, points, flips)[j])
    decreases |parents|
  {
    if |parents| >= 2 {
      OffspringShape(parents[2..], points[1..], flips[2..]);
      if forall j :: 0 <= j < |parents| ==> IsBits(parents[j]) {
        assert forall j :: 0 <= j < |parents| - 2 ==> IsBits(parents[2..][j]);
      }
    }
  }

  lemma ChildrenAreChromosomes(parents: seq<string>, points: seq<nat>, flips: seq<seq<real>>)
    requires BreedInputs(parents, points, flips)
    requires forall j :: 0 <= j < |parents| ==> IsChromosome(parents[j])
    ensures forall j :: 0 <= j < |parents| ==> IsChromosome(Offspring(parents, points, flips)[j])
  {
    OffspringShape(parents, points, flips);
  }

  predicate AllFit(draws: seq<GenerationDraws>) {
    forall g :: 0 <= g < |draws| ==> DrawsFit(draws[g])
  }

  /** The state after running the given generations from a state. */
  function Run(state: GAState, draws: seq<GenerationDraws>, f: Objective): (final: GAState)
    requires ValidPopulation(state.population) && Positive(f) && AllFit(draws)
    ensures ValidPopulation(final.population)
    ensures |draws| > 0 ==> final.best.Some?
    ensures state.best.Some? ==> final.best.Some? && final.best.value.1 >= state.best.value.1
  {
    if |draws| == 0 then state
    else Step(Run(state, draws[..|draws| - 1], f), draws[|draws| - 1], f)
  }

  /** Running one generation more is one more Step. */
  lemma RunOneMore(state: GAState, draws: seq<GenerationDraws>, f: Objective, g: nat)
    requires ValidPopulation(state.population) && Positive(f) && AllFit(draws) && g < |draws|
    ensures AllFit(draws[..g]) && AllFit(draws[..g + 1]) && DrawsFit(draws[g])
    ensures Run(state, draws[..g + 1], f) == Step(Run(state, draws[..g], f), draws[g], f)
  {
    assert draws[..g + 1][..g] == draws[..g];
  }

  /** Every scored individual the run has evaluated, generation by
      generation, in evaluation order. */
  function History(state: GAState, draws: seq<GenerationDraws>, f: Objective): (seen: seq<Scored>)
    requires ValidPopulation(state.population) && Positive(f) && AllFit(draws)
    ensures |seen| == |draws| * POPULATION_SIZE
  {
    if |draws| == 0 then []
    else History(state, draws[..|draws| - 1], f) + Scores(Run(state, draws[..|draws| - 1], f).population, f)
  }

  /** Starting from no record, the best-ever record after any number of
      generations is the first individual of greatest fitness among all
      those evaluated so far. */
  lemma {:induction false} RunKeepsBestEver(state: GAState, draws: seq<GenerationDraws>, f: Objective)
    requires ValidPopulation(state.population) && Positive(f) && AllFit(draws)
    requires state.best.None?
    ensures |draws| == 0 ==> Run(state, draws, f).best.None?
    ensures |draws| > 0 ==> Run(state, draws, f).best == Some(BestOf(History(state, draws, f)))
  {
    if |draws| > 0 {
      var earlier := draws[..|draws| - 1];
      RunKeepsBestEver(state, earlier, f);
      var previous := Run(state, earlier, f);
      UpdateBestIsFirstMax(History(state, earlier, f), Scores(previous.population, f));
    }
  }

  /** The body of one generation of the main loop: evaluate, update the
      best-ever record on strict improvement, select and breed. */
  method RunGeneration(population: seq<string>, best: Option<Scored>, f: Objective, d: GenerationDraws)
    returns (newPopulation: seq<string>, newBest: Option<Scored>)
    requires ValidPopulation(population) && Positive(f) && DrawsFit(d)
    ensures GAState(newPopulation, newBest) == Step(GAState(population, best), d, f)
  {
    var scores := CalculateFitness(population, f);
    var current := scores[FirstMaxIndex(scores)];
    newBest := best;
    if best.None? || current.1 > best.value.1 {
      newBest := Some(current);
    }
    SelectionBreeds(population, f, d);
    var parents := SelectParents(scores, POPULATION_SIZE, d.wheel);
    newPopulation := Reproduce(parents, d.points, d.flips);
  }

  /** The generational loop from a valid population and no record: one
      RunGeneration per draw. */
  method Evolve(initial: seq<string>, f: Objective, draws: seq<GenerationDraws>)
    returns (population: seq<string>, best: Option<Scored>)
    requires ValidPopulation(initial) && Positive(f) && AllFit(draws)
    ensures GAState(population, best) == Run(GAState(initial, None), draws, f)
  {
    population, best := initial, None;
    for generation := 0 to |draws|
      invariant GAState(population, best) == Run(GAState(initial, None), draws[..generation], f)
    {
      RunOneMore(GAState(initial, None), draws, f, generation);
      population, best := RunGeneration(population, best, f, draws[generation]);
    }
    assert draws[..|draws|] == draws;
  }

  /** The whole run: initialise, then NUM_GENERATIONS generations; report the
      best individual ever evaluated and its decoded coordinates. */
  method RunGeneticAlgorithm(f: Objective, tosses: seq<seq<bool>>, draws: seq<GenerationDraws>)
    returns (bestIndividual: string, bestFitness: real, x: real, y: real)
    requires Positive(f) && TossesFit(tosses)
    requires |draws| == NUM_GENERATIONS && AllFit(draws)
    ensures (bestIndividual, bestFitness) == BestOf(History(Start(tosses), draws, f))
    ensures forall k :: 0 <= k < |History(Start(tosses), draws, f)| ==> History(Start(tosses), draws, f)[k].1 <= bestFitness
    ensures IsChromosome(bestIndividual)
    ensures (x, y) == Coordinates(bestIndividual)
    ensures INTERVAL_START <= x <= INTERVAL_END && INTERVAL_START <= y <= INTERVAL_END
    ensures bestFitness == f(x, y)
  {
    var population := InitializePopulation(POPULATION_SIZE, CHROMOSOME_LENGTH, tosses);
    assert GAState(population, None) == Start(tosses);
    var best;
    population, best := Evolve(population, f, draws);
    BestOfRun(Start(tosses), draws, f);
    bestIndividual, bestFitness := best.value.0, best.value.1;
    var (decodedX, decodedY) := Coordinates(bestIndividual);
    x, y := decodedX, decodedY;
  }

  /** After at least one generation from no record, the record is the first
      fittest of everything evaluated, and it is a chromosome. */
  lemma BestOfRun(state: GAState, draws: seq<GenerationDraws>, f: Objective)
    requires ValidPopulation(state.population) && Positive(f) && AllFit(draws)
    requires state.best.None? && |draws| > 0
    ensures Run(state, draws, f).best == Some(BestOf(History(state, draws, f)))
    ensures forall k :: 0 <= k < |History(state, draws, f)| ==> History(state, draws, f)[k].1 <= BestOf(History(state, draws, f)).1
    ensures IsChromosome(BestOf(History(state, draws, f)).0)
    ensures BestOf(History(state, draws, f)).1 == EvaluateIndividual(BestOf(History(state, draws, f)).0, f)
  {
    RunKeepsBestEver(state, draws, f);
    BestWasEvaluated(state, draws, f, FirstMaxIndex(History(state, draws, f)));
  }

  /** Whatever the run has evaluated is a chromosome, paired with its own
      fitness. */
  lemma {:induction false} BestWasEvaluated(state: GAState, draws: seq<GenerationDraws>, f: Objective, k: nat)
    requires ValidPopulation(state.population) && Positive(f) && AllFit(draws)
    requires k < |History(state, draws, f)|
    ensures IsChromosome(History(state, draws, f)[k].0)
    ensures History(state, draws, f)[k].1 == EvaluateIndividual(History(state, draws, f)[k].0, f)
  {
    var earlier := draws[..|draws| - 1];
    var before := History(state, earlier, f);
    if k < |before| {
      BestWasEvaluated(state, earlier, f, k);
    } else {
      var population := Run(state, earlier, f).population;
      ScoresInOrder(population, f);
      ConcatRight(before, Scores(population, f), k);
    }
  }
}
