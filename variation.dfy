/** Variation operators: single-point crossover and per-bit mutation. The
    crossover point and the uniform draw for each bit are inputs. */
module Variation {
  import opened Codec
  import opened Sequences

  /** Single-point crossover: each child keeps its own parent's prefix before
      the point and takes the other parent's suffix from the point on. */
  function Crossover(parent1: string, parent2: string, point: nat): (children: (string, string))
    requires 1 <= point < |parent1|
    ensures |parent1| == |parent2| ==> |children.0| == |parent1| && |children.1| == |parent1|
    ensures IsBits(parent1) && IsBits(parent2) ==> IsBits(children.0) && IsBits(children.1)
  {
    (Take(parent1, point) + Drop(parent2, point), Take(parent2, point) + Drop(parent1, point))
  }

  /** Position by position, equal-length parents hand their bits to the
      children unchanged before the point and swapped from the point on; so at
      each position the two child bits are the two parent bits in some order. */
  lemma CrossoverPositions(parent1: string, parent2: string, point: nat)
    requires 1 <= point < |parent1| && |parent1| == |parent2|
    ensures forall i :: 0 <= i < point ==>
      Crossover(parent1, parent2, point).0[i] == parent1[i] && Crossover(parent1, parent2, point).1[i] == parent2[i]
    ensures forall i :: point <= i < |parent1| ==>
      Crossover(parent1, parent2, point).0[i] == parent2[i] && Crossover(parent1, parent2, point).1[i] == parent1[i]
    ensures forall i :: 0 <= i < |parent1| ==>
      multiset{Crossover(parent1, parent2, point).0[i], Crossover(parent1, parent2, point).1[i]}
        == multiset{parent1[i], parent2[i]}
  {
  }

  /** Crossing the children again at the same point gives back the parents. */
  lemma CrossoverUndone(parent1: string, parent2: string, point: nat)
    requires 1 <= point < |parent1| && |parent1| == |parent2|
    ensures Crossover(Crossover(parent1, parent2, point).0, Crossover(parent1, parent2, point).1, point) == (parent1, parent2)
  {
    var (c1, c2) := Crossover(parent1, parent2, point);
    assert c1[..point] + c2[point..] == parent1;
    assert c2[..point] + c1[point..] == parent2;
  }

  /** Crossover creates and destroys no characters: the children hold exactly
      the parents' characters between them. */
  lemma CrossoverConserves(parent1: string, parent2: string, point: nat)
    requires 1 <= point < |parent1| && |parent1| == |parent2|
    ensures multiset(Crossover(parent1, parent2, point).0) + multiset(Crossover(parent1, parent2, point).1)
         == multiset(parent1) + multiset(parent2)
  {
    assert parent1 == parent1[..point] + parent1[point..];
    assert parent2 == parent2[..point] + parent2[point..];
  }

  /** The flip of one character: '0' becomes '1' and anything else '0'. */
  function Flip(c: char): char {
    if c == '0' then '1' else '0'
  }

  /** Mutation: the character at i is flipped exactly when its draw is below
      the rate. */
  function Mutation(chromosome: string, rate: real, draws: seq<real>): (mutated: string)
    requires |draws| == |chromosome|
    ensures |mutated| == |chromosome|
    ensures IsBits(chromosome) ==> IsBits(mutated)
  {
    seq(|chromosome|, i requires 0 <= i < |chromosome| => if draws[i] < rate then Flip(chromosome[i]) else chromosome[i])
  }

  method Mutate(chromosome: string, rate: real, draws: seq<real>) returns (mutated: string)
    requires |draws| == |chromosome|
    ensures |mutated| == |chromosome|
    ensures mutated == Mutation(chromosome, rate, draws)
  {
    var bits := new char[|chromosome|](i requires 0 <= i < |chromosome| => chromosome[i]);
    for i := 0 to bits.Length
      invariant forall k :: 0 <= k < i ==> bits[k] == Mutation(chromosome, rate, draws)[k]
      invariant forall k :: i <= k < bits.Length ==> bits[k] == chromosome[k]
    {
      if draws[i] < rate {
        bits[i] := if bits[i] == '0' then '1' else '0';
      }
    }
    mutated := bits[..];
  }

  /** Mutation changes exactly the positions whose draw is below the rate. */
  lemma MutationChangesDrawnPositions(chromosome: string, rate: real, draws: seq<real>)
    requires |draws| == |chromosome|
    ensures forall i :: 0 <= i < |chromosome| ==>
      (Mutation(chromosome, rate, draws)[i] != chromosome[i] <==> draws[i] < rate)
  {
  }

  /** The bitwise complement of a bit string. */
  function Complement(s: string): (t: string)
    ensures |t| == |s|
  {
    seq(|s|, i requires 0 <= i < |s| => Flip(s[i]))
  }

  /** With no draw below the rate (for instance rate 0 and draws in [0, 1))
      mutation returns its input. */
  lemma MutationWithoutFlips(chromosome: string, rate: real, draws: seq<real>)
    requires |draws| == |chromosome|
    requires forall i :: 0 <= i < |draws| ==> rate <= draws[i]
    ensures Mutation(chromosome, rate, draws) == chromosome
  {
  }

  /** With every draw below the rate (for instance rate 1 and draws in
      [0, 1)) mutation returns the bitwise complement. */
  lemma MutationOfEveryBit(chromosome: string, rate: real, draws: seq<real>)
    requires IsBits(chromosome) && |draws| == |chromosome|
    requires forall i :: 0 <= i < |draws| ==> draws[i] < rate
    ensures Mutation(chromosome, rate, draws) == Complement(chromosome)
  {
  }

  /** For a fixed pattern of draws, mutating twice restores a bit string. */
  lemma MutationInvolution(chromosome: string, rate: real, draws: seq<real>)
    requires IsBits(chromosome) && |draws| == |chromosome|
    ensures Mutation(Mutation(chromosome, rate, draws), rate, draws) == chromosome
  {
  }

  /** The complement of a numeral of width w denotes 2^w - 1 minus its value. */
  lemma {:induction false} ValueOfComplement(s: string)
    requires IsBits(s)
    ensures Value(Complement(s)) == Pow2(|s|) - 1 - Value(s)
  {
    if |s| > 0 {
      var init := s[..|s| - 1];
      assert Complement(s)[..|s| - 1] == Complement(init);
      ValueOfComplement(init);
    }
  }

  /** Flipping every bit reflects the decoded value through the midpoint of the
      interval: decode(complement(s)) = start + end - decode(s). */
  lemma ComplementReflects(s: string, start: real, end: real)
    requires IsBits(s) && |s| > 0
    ensures BinToReal(Complement(s), start, end, |s|) == start + end - BinToReal(s, start, end, |s|)
  {
    ValueOfComplement(s);
    ValueBound(s);
    GridEnds(start, end, |s|);
    var d := (Pow2(|s|) - 1) as real;
    var step := (end - start) / d;
    assert step * d == end - start;
    assert step * ((Pow2(|s|) - 1 - Value(s)) as real) == step * d - step * (Value(s) as real);
  }
}
