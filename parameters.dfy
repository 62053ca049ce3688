/** The algorithm's fixed configuration and the chromosome layout derived
    from it. */
module Parameters {
  import opened Codec

  const INTERVAL_START: real := -10.0
  const INTERVAL_END: real := 10.0
  const PRECISION: real := 0.005
  const POPULATION_SIZE: nat := 100
  const MUTATION_RATE: real := 0.05
  const NUM_GENERATIONS: nat := 500

  /** Bits per decoded variable; LayoutIsTwelveBits shows that it is the
      least width whose decoding step meets PRECISION. */
  const BITS_PER_VARIABLE: nat := 12

  /** A chromosome holds x followed by y. */
  const CHROMOSOME_LENGTH: nat := BITS_PER_VARIABLE * 2

  /** The width rule applied to the interval [-10, 10] and precision 0.005
      gives 12 bits per variable (2^12 - 1 = 4095 >= 4000 > 2047 = 2^11 - 1),
      so a chromosome has 24. */
  lemma LayoutIsTwelveBits()
    ensures BitsFor(INTERVAL_START, INTERVAL_END, PRECISION) == BITS_PER_VARIABLE
    ensures CHROMOSOME_LENGTH == 24
  {
    var q := (INTERVAL_END - INTERVAL_START) / PRECISION;
    assert q == 4000.0;
    assert CeilNat(q) == 4000;
    assert BitLength(4000) == 12 by {
      assert BitLength(0) == 0;
      assert BitLength(1) == 1 + BitLength(0);
      assert BitLength(3) == 1 + BitLength(1);
      assert BitLength(7) == 1 + BitLength(3);
      assert BitLength(15) == 1 + BitLength(7);
      assert BitLength(31) == 1 + BitLength(15);
      assert BitLength(62) == 1 + BitLength(31);
      assert BitLength(125) == 1 + BitLength(62);
      assert BitLength(250) == 1 + BitLength(125);
      assert BitLength(500) == 1 + BitLength(250);
      assert BitLength(1000) == 1 + BitLength(500);
      assert BitLength(2000) == 1 + BitLength(1000);
      assert BitLength(4000) == 1 + BitLength(2000);
    }
  }
}
