/** Fitness evaluation: a chromosome is split at its midpoint into x and y,
    both decoded onto the search interval, and scored by the objective. */
module Fitness {
  import opened Codec
  import opened Parameters
  import opened Sequences

  /** The objective f(x, y); the program's own f adds 10^-4 to an absolute
      value, so it is positive everywhere. */
  type Objective = (real, real) -> real

  ghost predicate Positive(f: Objective) {
    forall x, y :: f(x, y) > 0.0
  }

  /** A chromosome paired with its fitness. */
  type Scored = (string, real)

  predicate IsChromosome(c: string) {
    IsBits(c) && |c| == CHROMOSOME_LENGTH
  }

  /** A string both of whose halves can be read as numerals: bits only, and
      longer than the midpoint so that the second half is not empty. */
  predicate Decodable(c: string) {
    IsBits(c) && |c| > CHROMOSOME_LENGTH / 2
  }

  /** The (x, y) a chromosome stands for: x from the bits before the midpoint,
      y from the bits after it, with one interval and one width. */
  function Coordinates(c: string): (xy: (real, real))
    requires Decodable(c)
    ensures IsChromosome(c) ==> INTERVAL_START <= xy.0 <= INTERVAL_END && INTERVAL_START <= xy.1 <= INTERVAL_END
  {
    var mid := CHROMOSOME_LENGTH / 2;
    (BinToReal(c[..mid], INTERVAL_START, INTERVAL_END, BITS_PER_VARIABLE),
     BinToReal(c[mid..], INTERVAL_START, INTERVAL_END, BITS_PER_VARIABLE))
  }

  /** A chromosome built from two numerals of the variable width decodes to
      the first as x and the second as y. */
  lemma CoordinatesOfHalves(xs: string, ys: string)
    requires IsBits(xs) && IsBits(ys) && |xs| == BITS_PER_VARIABLE && |ys| == BITS_PER_VARIABLE
    ensures IsChromosome(xs + ys)
    ensures Coordinates(xs + ys)
         == (BinToReal(xs, INTERVAL_START, INTERVAL_END, BITS_PER_VARIABLE),
             BinToReal(ys, INTERVAL_START, INTERVAL_END, BITS_PER_VARIABLE))
  {
    var c := xs + ys;
    assert c[..CHROMOSOME_LENGTH / 2] == xs;
    assert c[CHROMOSOME_LENGTH / 2..] == ys;
  }

  /** Every pair of grid points is the decoding of some chromosome. */
  lemma CoordinatesReachGrid(i: nat, j: nat)
    requires i < Pow2(BITS_PER_VARIABLE) && j < Pow2(BITS_PER_VARIABLE)
    ensures IsChromosome(ToBits(i, BITS_PER_VARIABLE) + ToBits(j, BITS_PER_VARIABLE))
    ensures Coordinates(ToBits(i, BITS_PER_VARIABLE) + ToBits(j, BITS_PER_VARIABLE))
         == (GridPoint(INTERVAL_START, INTERVAL_END, BITS_PER_VARIABLE, i),
             GridPoint(INTERVAL_START, INTERVAL_END, BITS_PER_VARIABLE, j))
  {
    CoordinatesOfHalves(ToBits(i, BITS_PER_VARIABLE), ToBits(j, BITS_PER_VARIABLE));
    DecodeToBits(i, INTERVAL_START, INTERVAL_END, BITS_PER_VARIABLE);
    DecodeToBits(j, INTERVAL_START, INTERVAL_END, BITS_PER_VARIABLE);
  }

  /** The fitness of one chromosome: the objective at its coordinates. */
  function EvaluateIndividual(c: string, f: Objective): (fitness: real)
    requires Decodable(c)
    ensures Positive(f) ==> fitness > 0.0
  {
    var (x, y) := Coordinates(c);
    f(x, y)
  }

  /** The scored population: each chromosome with its fitness, in order. */
  function Scores(population: seq<string>, f: Objective): (scores: seq<Scored>)
    requires forall i :: 0 <= i < |population| ==> Decodable(population[i])
  {
    seq(|population|, i requires 0 <= i < |population| => (population[i], EvaluateIndividual(population[i], f)))
  }

  /** Scoring keeps the population's order, and a positive objective gives
      every individual a positive fitness. */
  lemma ScoresInOrder(population: seq<string>, f: Objective)
    requires forall i :: 0 <= i < |population| ==> Decodable(population[i])
    ensures |Scores(population, f)| == |population|
    ensures forall i :: 0 <= i < |population| ==>
      Scores(population, f)[i].0 == population[i] && Scores(population, f)[i].1 == EvaluateIndividual(population[i], f)
    ensures Positive(f) ==> forall i :: 0 <= i < |population| ==> Scores(population, f)[i].1 > 0.0
  {
  }

  /** The fitness of every individual, in population order. */
  method CalculateFitness(population: seq<string>, f: Objective) returns (scores: seq<Scored>)
    requires forall i :: 0 <= i < |population| ==> Decodable(population[i])
    ensures scores == Scores(population, f)
  {
    ghost var all := Scores(population, f);
    scores := [];
    for i := 0 to |population|
      invariant scores == all[..i]
    {
      var fitness := EvaluateIndividual(population[i], f);
      PrefixGrowsByOne(all, i);
      scores := scores + [(population[i], fitness)];
    }
    assert all[..|population|] == all;
  }
}
