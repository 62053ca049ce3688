/** Random initialisation of the population. Each coin toss that picks a
    character is an input: true stands for '1', false for '0'. */
module Population {
  import opened Codec

  /** The chromosome spelled by a sequence of coin tosses. */
  function BitsOf(tosses: seq<bool>): (s: string)
    ensures |s| == |tosses| && IsBits(s)
    ensures forall i :: 0 <= i < |s| ==> (s[i] == '1' <==> tosses[i])
  {
    seq(|tosses|, i requires 0 <= i < |tosses| => if tosses[i] then '1' else '0')
  }

  /** Every bit string is spelled by some tosses, so initialisation can
      produce any chromosome of the requested length. */
  lemma BitsOfReachesAll(s: string)
    requires IsBits(s)
    ensures BitsOf(seq(|s|, i requires 0 <= i < |s| => s[i] == '1')) == s
  {
  }

  method GenerateChromosome(length: nat, tosses: seq<bool>) returns (chromosome: string)
    requires |tosses| == length
    ensures |chromosome| == length && IsBits(chromosome)
    ensures chromosome == BitsOf(tosses)
  {
    chromosome := [];
    for i := 0 to length
      invariant chromosome == BitsOf(tosses[..i])
    {
      assert tosses[..i + 1] == tosses[..i] + [tosses[i]];
      chromosome := chromosome + [if tosses[i] then '1' else '0'];
    }
    assert tosses[..length] == tosses;
  }

  method InitializePopulation(size: nat, chromosomeLength: nat, tosses: seq<seq<bool>>) returns (population: seq<string>)
    requires |tosses| == size
    requires forall k :: 0 <= k < size ==> |tosses[k]| == chromosomeLength
    ensures |population| == size
    ensures forall k :: 0 <= k < size ==> |population[k]| == chromosomeLength && IsBits(population[k])
    ensures forall k :: 0 <= k < size ==> population[k] == BitsOf(tosses[k])
  {
    population := [];
    for k := 0 to size
      invariant |population| == k
      invariant forall j :: 0 <= j < k ==> population[j] == BitsOf(tosses[j])
    {
      var chromosome := GenerateChromosome(chromosomeLength, tosses[k]);
      population := population + [chromosome];
    }
  }
}
