# Binary genetic algorithm for maximising f(x, y)

A Dafny model of the genetic algorithm in `src/init.py`. The algorithm
searches [-10, 10] x [-10, 10] for the maximum of a positive function f(x, y).

- Each individual is a chromosome of '0'/'1' characters. The first half encodes x and the second half encodes y.
- Each half is read as an unsigned binary numeral and mapped onto the interval in steps of (end - start) / (2^bits - 1).
- The bit width is the least k whose step is at most the precision 0.005. That is 12 bits, so a chromosome has 24.
- A population of 100 random chromosomes evolves for 500 generations. Each generation:
  1. evaluates every chromosome;
  2. records the best individual ever seen, replacing it only on strict improvement;
  3. spins a roulette wheel (slices proportional to fitness, 360 degrees in all) once per individual to select parents;
  4. crosses consecutive pairs of parents at one point;
  5. mutates every child bit by bit with rate 0.05, and mutates an unpaired last parent;
  6. keeps the first 100 children as the next population.
- At the end the best individual ever seen is reported with its decoded x and y.

The project has one module per part of the program:

- `Codec`: decoding numerals onto the interval, and the bit-width rule.
- `Parameters`: the configuration and the chromosome layout.
- `Fitness`: splitting a chromosome and scoring it.
- `Population`: random initialisation.
- `Variation`: crossover and mutation.
- `Selection`: the roulette wheel.
- `Evolution`: breeding, one generation, and the whole run.
- `Sequences`: Python's clamped slicing `s[:n]` and `s[n:]`.

Every random choice is an explicit input:

- a coin toss per initial bit;
- a wheel draw in [0, 360] per selected parent;
- a crossover point in [1, length - 1] per pair;
- a uniform draw per bit of every child.

The loops of the program are methods proved against the functions that specify them:

- `GenerateChromosome` and `InitializePopulation`;
- `CalculateFitness` and `BuildWheel`;
- `FindSlice` and `SelectParents`;
- `Mutate`, which flips characters in a buffer;
- `Reproduce` and the generation loop.

A run is the fold of `Step` over the generations' draws. `History` lists every scored individual in evaluation order. The result is shown to be the first individual of greatest fitness in `History`.

## Model

| member | source | states |
|---|---|---|
| Codec.ValueBound | src/init.py:41 | a numeral of width w denotes a number in [0, 2^w - 1] |
| Codec.ToBits | src/init.py:41 | the w-wide numeral of n < 2^w has width w and only '0'/'1' |
| Codec.ValueOfToBits | src/init.py:41 | reading back the w-wide numeral of n gives n |
| Codec.ToBitsOfValue | src/init.py:41 | a bit string is the numeral of its own value at its own width (round trip) |
| Codec.ValueInjective | src/init.py:41 | two bit strings of one width with the same value are equal |
| Codec.ValueOfZeros | src/init.py:41 | all zeros denote 0 |
| Codec.ValueOfOnes | src/init.py:41 | all ones denote 2^w - 1 |
| Codec.GridMonotone | src/init.py:42 | grid points are ordered like their indices, strictly when start < end |
| Codec.GridEnds | src/init.py:42 | grid point 0 is start and grid point 2^bits - 1 is end |
| Codec.GridWithin | src/init.py:42 | every grid point of an index below 2^bits lies in [start, end] |
| Codec.BinToReal | src/init.py:40-43 | the decoded value of a numeral of the given width lies in [start, end] |
| Codec.DecodeAllZeros | src/init.py:40-43 | all zeros decode to start |
| Codec.DecodeAllOnes | src/init.py:40-43 | all ones decode to end |
| Codec.DecodeMonotone | src/init.py:40-43 | decoding preserves the order of values, strictly on a proper interval |
| Codec.DecodeToBits | src/init.py:40-43 | grid point k is the decoding of k's numeral, so every grid point is reachable |
| Codec.BitLength | src/init.py:33-34 | the least k with n < 2^k |
| Codec.CeilNat | src/init.py:34 | the least integer not below a non-negative real |
| Codec.BitsFor | src/init.py:23-34 | the width has step (end - start) / (2^k - 1) at most the precision, and every smaller width has a larger step |
| Parameters.LayoutIsTwelveBits | src/init.py:16-35 | the width rule on [-10, 10] with precision 0.005 gives 12 bits, and a chromosome has 24 |
| Sequences.Take | src/init.py:182 | the slice `s[:n]` has min(n, len s) elements |
| Sequences.Drop | src/init.py:123-124 | the slice `s[n:]` has len s - min(n, len s) elements |
| Fitness.Coordinates | src/init.py:48-54 | x and y of a chromosome both lie in [-10, 10] |
| Fitness.CoordinatesOfHalves | src/init.py:49-54 | x is decoded from the first 12 bits and y from the last 12 |
| Fitness.CoordinatesReachGrid | src/init.py:48-54 | every pair of grid points is the (x, y) of some chromosome |
| Fitness.EvaluateIndividual | src/init.py:48-56 | the fitness is positive for a positive objective |
| Fitness.ScoresInOrder | src/init.py:81-88 | one score per individual, in population order, each pairing the individual with its fitness |
| Fitness.CalculateFitness | src/init.py:81-88 | the loop builds exactly the scored population |
| Population.BitsOf | src/init.py:61-67 | the chromosome has one character per toss, '1' exactly for a true toss |
| Population.BitsOfReachesAll | src/init.py:61-67 | every bit string can come out of initialisation |
| Population.GenerateChromosome | src/init.py:61-67 | the loop builds a bit string of the requested length, namely the one the tosses spell |
| Population.InitializePopulation | src/init.py:70-76 | size chromosomes, each of the requested length, chromosome k spelled by toss sequence k |
| Variation.Crossover | src/init.py:121-125 | equal-length parents give children of that length, and bit strings give bit strings |
| Variation.CrossoverPositions | src/init.py:123-124 | children copy their own parent before the point and the other parent from it on; at every position the children's bits are the parents' bits in some order |
| Variation.CrossoverUndone | src/init.py:123-124 | crossing the children again at the same point gives back the parents |
| Variation.CrossoverConserves | src/init.py:123-124 | the children together hold exactly the parents' characters |
| Variation.Mutation | src/init.py:128-135 | mutation keeps the length and keeps bit strings bit strings |
| Variation.Mutate | src/init.py:128-135 | the flip loop over the character buffer yields the specified mutation |
| Variation.MutationChangesDrawnPositions | src/init.py:131-133 | a position changes if and only if its draw is below the rate |
| Variation.MutationWithoutFlips | src/init.py:131-133 | with no draw below the rate the chromosome is unchanged |
| Variation.MutationOfEveryBit | src/init.py:131-133 | with every draw below the rate the result is the bitwise complement |
| Variation.MutationInvolution | src/init.py:133 | mutating twice with the same draws restores a bit string |
| Variation.ValueOfComplement | src/init.py:133 | the complement of a w-bit numeral denotes 2^w - 1 minus its value |
| Variation.ComplementReflects | src/init.py:133 | flipping every bit reflects the decoded value: start + end - decode(s) |
| Selection.TotalFitness | src/init.py:94-97 | the total fitness of a non-empty positive population is positive, so the fallback is never taken |
| Selection.Pieces | src/init.py:103 | one slice per individual |
| Selection.WheelBounds | src/init.py:99-105 | one cumulative bound per individual |
| Selection.PiecesPrefix | src/init.py:102-105 | the first n slices cover the first n fitnesses' share of 360 degrees |
| Selection.WheelIncreasing | src/init.py:102-105 | the cumulative bounds increase strictly |
| Selection.WheelCloses | src/init.py:99-105 | the last bound is exactly 360 |
| Selection.WheelSlice | src/init.py:103-104 | each slice spans fitness / total * 360 degrees |
| Selection.FirstReaching | src/init.py:111-114 | the index of the first bound the draw does not exceed, or the end |
| Selection.Pick | src/init.py:109-114 | one draw selects at most one individual |
| Selection.Spin | src/init.py:107-114 | no more parents than draws |
| Selection.PickInSlice | src/init.py:109-114 | a draw in [0, 360] selects individual i if and only if it lies above the previous bound and at most i's bound |
| Selection.SpinSelectsOnePerDraw | src/init.py:107-114 | draws in [0, 360] select exactly one parent each, the individual whose slice holds the draw |
| Selection.SpinPicksMembers | src/init.py:107-116 | every selected parent is an individual of the scored population |
| Selection.BuildWheel | src/init.py:99-105 | the accumulation loop pairs each individual with its cumulative bound |
| Selection.FindSlice | src/init.py:111-114 | the scan stops at the first bound not below the draw, or runs off the end |
| Selection.SelectParents | src/init.py:93-116 | the parents are the spin of the draws; draws in [0, 360] give num_parents parents, all from the population |
| Evolution.FirstMaxIndex | src/init.py:154 | the index of a greatest fitness, earlier than every other greatest (what `max` with a key returns) |
| Evolution.UpdateBest | src/init.py:156-159 | the record never decreases, is the old record or the candidate, and a tie keeps the old record |
| Evolution.UpdateBestIsFirstMax | src/init.py:154-159 | folding a batch into the record of earlier batches gives the first maximum of all of them |
| Evolution.Offspring | src/init.py:166-178 | one child per parent |
| Evolution.OffspringSuffix | src/init.py:166-178 | breeding is pairwise: the children from 2k on are the children of the parents from 2k on |
| Evolution.OffspringOfPair | src/init.py:167-175 | children 2k and 2k+1 are the mutated crossover children of parents 2k and 2k+1 at point k |
| Evolution.OffspringOfLeftover | src/init.py:176-178 | with an odd number of parents the last child is the last parent, mutated |
| Evolution.PairRecombines | src/init.py:167-175 | without mutation, pair k's children hold the pair's bits position by position, in some order |
| Evolution.LeftoverPassesOn | src/init.py:176-178 | without mutation the unpaired last parent passes on unchanged |
| Evolution.OffspringShape | src/init.py:166-178 | each child has its parent's length, and bit-string parents give bit-string children |
| Evolution.ChildrenAreChromosomes | src/init.py:166-178 | chromosome parents give chromosome children |
| Evolution.BreedPair | src/init.py:168-175 | both children of a pair are crossed and then mutated |
| Evolution.BreedAt | src/init.py:166-178 | one turn of the breeding loop extends the children by the pair's two, or by the mutated leftover |
| Evolution.Reproduce | src/init.py:164-182 | the new population is the first POPULATION_SIZE children, min(len parents, 100) of them |
| Evolution.Start | src/init.py:141-144 | initialisation gives a valid population and no record |
| Evolution.SpinKeepsChromosomes | src/init.py:162 | the wheel selects one chromosome per draw |
| Evolution.SelectionBreeds | src/init.py:162-178 | selection gives 100 chromosomes that pair up with the crossover points and mutation draws |
| Evolution.NextPopulationValid | src/init.py:162-186 | the next population is again 100 chromosomes |
| Evolution.Step | src/init.py:149-186 | a generation keeps the population valid, sets the record, and never lowers it |
| Evolution.Run | src/init.py:149-186 | after at least one generation there is a record, never below the initial one |
| Evolution.RunOneMore | src/init.py:149-186 | running one more generation is one more Step |
| Evolution.History | src/init.py:151 | one scored individual per individual per generation |
| Evolution.RunKeepsBestEver | src/init.py:151-159 | the record is the first individual of greatest fitness among all evaluated so far |
| Evolution.RunGeneration | src/init.py:150-186 | the loop body (evaluate, strict update, select, breed, truncate) computes one Step |
| Evolution.Evolve | src/init.py:149-186 | the generation loop computes the Run over the draws |
| Evolution.BestOfRun | src/init.py:156-197 | the final record is the first fittest of the history, no evaluated fitness exceeds it, and it is a chromosome paired with its own fitness |
| Evolution.BestWasEvaluated | src/init.py:151-159 | every evaluated individual is a chromosome, paired with its own fitness |
| Evolution.RunGeneticAlgorithm | src/init.py:140-197 | the reported individual and fitness are the first fittest of everything evaluated; no evaluated fitness exceeds it; it is a chromosome; the reported x and y are its decoded halves and lie in [-10, 10]; the reported fitness is f(x, y) |

## Left out

- The objective `f` (src/init.py:7-11) is a parameter with only one assumed property: it is positive everywhere. The source adds 10^-4 to an absolute value, which makes it positive. Its floating-point exponential is not modelled.
- All arithmetic is exact. The following are not modelled:
  - floating-point rounding in decoding and on the wheel;
  - the `log2`/`ceil` evaluation of the bit width. `BITS_PER_VARIABLE` is the literal 12, and `Parameters.LayoutIsTwelveBits` proves it equal to the exact width rule `Codec.BitsFor`.
- Rounding on the wheel could leave the last cumulative bound just below a draw. The source then appends no parent for that draw. In the model the last bound is exactly 360 (`Selection.WheelCloses`), so this happens only for draws above 360. `Selection.Spin` keeps the "no parent" case for such draws.
- The pseudo-random generator is not modelled. Every random value is an input:
  - `random.choice` becomes a coin toss per bit;
  - `random.uniform(0, 360)` becomes a wheel draw, required to lie in [0, 360];
  - `random.randint(1, len - 1)` becomes a crossover point, required to lie in [1, 23];
  - `random.uniform(0, 1)` becomes a real draw per bit, compared with the rate.
- The zero-total fallback of `select_parents` (src/init.py:96-97) is not modelled. It samples parents without replacement. `Selection.SelectParents` requires positive fitnesses, which a positive objective guarantees (`Selection.TotalFitness`).
- Printing is not modelled: the layout report (146-147), the report every 50 generations (188-193), the final report (199-204) and the `__main__` entry (207-208). `Evolution.RunGeneticAlgorithm` returns the best chromosome, its fitness and its decoded x and y instead.
- Python run-time errors become preconditions, because the program never reaches them:
  - `int('', 2)` on an empty half;
  - `randint(1, 0)` on a chromosome shorter than 2;
  - decoding `None` after zero generations.
- Evolution.Reproduce: requires the two parents of every pair to have one length (`Evolution.BreedInputs`). The source would also cross strings of different lengths with clamped slicing; `Variation.Crossover` models that case, but breeding never meets it, since every parent is a 24-bit chromosome.
- Selection.SelectParents: states that each parent belongs to the population (`Selection.Members`). The exact slice that selects each parent is stated by `Selection.SpinSelectsOnePerDraw`.
- Variation.Mutate: states only the result. That exactly the drawn positions change is stated by `Variation.MutationChangesDrawnPositions`.
- An early stop after a number of generations without improvement (stagnation) is not modelled. `run_genetic_algorithm` has no such rule: it always runs all 500 generations (src/init.py:149), and the model follows that loop.
