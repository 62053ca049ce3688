/** Chromosome codec: bit strings read as unsigned MSB-first numerals and mapped
    affinely onto a real interval, plus the rule that picks the bit width from
    the interval and the requested precision. */
module Codec {

  /** A string made only of the characters '0' and '1'. */
  predicate IsBits(s: string) {
    forall i :: 0 <= i < |s| ==> s[i] == '0' || s[i] == '1'
  }

  function Pow2(k: nat): (p: nat)
    ensures p >= 1
  {
    if k == 0 then 1 else 2 * Pow2(k - 1)
  }

  lemma {:induction false} Pow2Monotone(i: nat, j: nat)
    requires i <= j
    ensures Pow2(i) <= Pow2(j)
  {
    if i < j {
      Pow2Monotone(i, j - 1);
    }
  }

  function Digit(c: char): nat {
    if c == '1' then 1 else 0
  }

  /** The unsigned integer a bit string denotes, most significant bit first
      (what `int(s, 2)` yields for a non-empty string of '0'/'1'). */
  function Value(s: string): nat {
    if |s| == 0 then 0 else 2 * Value(s[..|s| - 1]) + Digit(s[|s| - 1])
  }

  /** A numeral of width w denotes a number in [0, 2^w - 1]. */
  lemma {:induction false} ValueBound(s: string)
    ensures Value(s) < Pow2(|s|)
  {
    if |s| > 0 {
      ValueBound(s[..|s| - 1]);
    }
  }

  /** The width-bit MSB-first numeral of n: the inverse of Value. */
  function ToBits(n: nat, width: nat): (s: string)
    requires n < Pow2(width)
    ensures |s| == width && IsBits(s)
  {
    if width == 0 then [] else ToBits(n / 2, width - 1) + [if n % 2 == 1 then '1' else '0']
  }

  lemma {:induction false} ValueOfToBits(n: nat, width: nat)
    requires n < Pow2(width)
    ensures Value(ToBits(n, width)) == n
  {
    if width > 0 {
      var s := ToBits(n, width);
      assert s[..|s| - 1] == ToBits(n / 2, width - 1);
      ValueOfToBits(n / 2, width - 1);
    }
  }

  lemma {:induction false} ToBitsOfValue(s: string)
    requires IsBits(s)
    ensures Value(s) < Pow2(|s|) && ToBits(Value(s), |s|) == s
  {
    ValueBound(s);
    if |s| > 0 {
      var init := s[..|s| - 1];
      assert IsBits(init);
      ToBitsOfValue(init);
      ValueBound(s);
      assert Value(s) / 2 == Value(init);
      assert s == init + [s[|s| - 1]];
    }
  }

  /** Two bit strings of the same width with the same value are equal. */
  lemma ValueInjective(a: string, b: string)
    requires IsBits(a) && IsBits(b) && |a| == |b|
    requires Value(a) == Value(b)
    ensures a == b
  {
    ToBitsOfValue(a);
    ToBitsOfValue(b);
  }

  lemma {:induction false} ValueOfZeros(width: nat)
    ensures Value(seq(width, _ => '0')) == 0
  {
    if width > 0 {
      var s := seq(width, _ => '0');
      assert s[..width - 1] == seq(width - 1, _ => '0');
      ValueOfZeros(width - 1);
    }
  }

  lemma {:induction false} ValueOfOnes(width: nat)
    ensures Value(seq(width, _ => '1')) == Pow2(width) - 1
  {
    if width > 0 {
      var s := seq(width, _ => '1');
      assert s[..width - 1] == seq(width - 1, _ => '1');
      ValueOfOnes(width - 1);
    }
  }

  /** Multiplying by a non-negative factor keeps order, and strictly so for a
      positive one. */
  lemma MulMonotone(c: real, u: real, v: real)
    requires c >= 0.0 && u <= v
    ensures c * u <= c * v
    ensures c > 0.0 && u < v ==> c * u < c * v
  {
    assert c * v - c * u == c * (v - u);
  }

  lemma PositiveStep(d: real, p: real)
    requires d >= 0.0 && p > 0.0
    ensures d / p >= 0.0
    ensures d > 0.0 ==> d / p > 0.0
  {
  }

  /** The k-th of the 2^bits evenly spaced points from start to end. */
  function GridPoint(start: real, end: real, bits: nat, k: nat): real
    requires bits > 0
  {
    start + ((end - start) / ((Pow2(bits) - 1) as real)) * (k as real)
  }

  /** Grid points are ordered like their indices, strictly on a proper interval. */
  lemma GridMonotone(start: real, end: real, bits: nat, m: nat, n: nat)
    requires bits > 0 && start <= end && m <= n
    ensures GridPoint(start, end, bits, m) <= GridPoint(start, end, bits, n)
    ensures start < end && m < n ==> GridPoint(start, end, bits, m) < GridPoint(start, end, bits, n)
  {
    var step := (end - start) / ((Pow2(bits) - 1) as real);
    PositiveStep(end - start, (Pow2(bits) - 1) as real);
    MulMonotone(step, m as real, n as real);
  }

  /** The first grid point is start and the last is end. */
  lemma GridEnds(start: real, end: real, bits: nat)
    requires bits > 0
    ensures GridPoint(start, end, bits, 0) == start
    ensures GridPoint(start, end, bits, Pow2(bits) - 1) == end
  {
    var d := (Pow2(bits) - 1) as real;
    assert (end - start) / d * d == end - start;
  }

  /** Every grid point lies in [start, end]. */
  lemma GridWithin(start: real, end: real, bits: nat, k: nat)
    requires bits > 0
    ensures start <= end && k < Pow2(bits) ==> start <= GridPoint(start, end, bits, k) <= end
  {
    if start <= end && k < Pow2(bits) {
      GridEnds(start, end, bits);
      GridMonotone(start, end, bits, 0, k);
      GridMonotone(start, end, bits, k, Pow2(bits) - 1);
    }
  }

  /** Decoding of a bit string onto [start, end]: the grid point its value
      indexes, in steps of (end - start) / (2^bits - 1). */
  function BinToReal(s: string, start: real, end: real, bits: nat): (r: real)
    requires IsBits(s) && |s| > 0 && bits > 0
    ensures |s| == bits && start <= end ==> start <= r <= end
  {
    ValueBound(s);
    GridWithin(start, end, bits, Value(s));
    GridPoint(start, end, bits, Value(s))
  }

  lemma DecodeAllZeros(bits: nat, start: real, end: real)
    requires bits > 0
    ensures BinToReal(seq(bits, _ => '0'), start, end, bits) == start
  {
    ValueOfZeros(bits);
    GridEnds(start, end, bits);
  }

  lemma DecodeAllOnes(bits: nat, start: real, end: real)
    requires bits > 0
    ensures BinToReal(seq(bits, _ => '1'), start, end, bits) == end
  {
    ValueOfOnes(bits);
    GridEnds(start, end, bits);
  }

  /** Decoding preserves the order of the integer values, strictly when the
      interval is not degenerate. */
  lemma DecodeMonotone(a: string, b: string, start: real, end: real, bits: nat)
    requires IsBits(a) && IsBits(b) && |a| > 0 && |b| > 0 && bits > 0
    requires start <= end && Value(a) <= Value(b)
    ensures BinToReal(a, start, end, bits) <= BinToReal(b, start, end, bits)
    ensures start < end && Value(a) < Value(b) ==> BinToReal(a, start, end, bits) < BinToReal(b, start, end, bits)
  {
    GridMonotone(start, end, bits, Value(a), Value(b));
  }

  /** Every grid point is the decoding of the bits-wide numeral of its index,
      so the codec reaches all 2^bits points of the grid. */
  lemma DecodeToBits(k: nat, start: real, end: real, bits: nat)
    requires bits > 0 && k < Pow2(bits)
    ensures BinToReal(ToBits(k, bits), start, end, bits) == GridPoint(start, end, bits, k)
  {
    ValueOfToBits(k, bits);
  }

  /** The least k with n < 2^k, that is the least k with 2^k - 1 >= n. */
  function BitLength(n: nat): (k: nat)
    ensures n < Pow2(k)
    ensures k > 0 ==> Pow2(k - 1) <= n
  {
    if n == 0 then 0 else 1 + BitLength(n / 2)
  }

  /** The least integer not below q. */
  function CeilNat(q: real): (n: nat)
    requires q >= 0.0
    ensures q <= n as real < q + 1.0
  {
    if q.Floor as real == q then q.Floor else q.Floor + 1
  }

  /** r / p <= precision follows from p >= r / precision. */
  lemma StepWithin(r: real, p: real, precision: real)
    requires r > 0.0 && p > 0.0 && precision > 0.0 && p >= r / precision
    ensures r / p <= precision
  {
    assert r / precision * precision == r;
    assert p * precision >= r / precision * precision;
    assert r / p * p == r;
  }

  /** Every width below BitLength(c) falls short of q when c < q + 1. */
  lemma BelowBitLength(c: nat, q: real)
    requires c as real < q + 1.0
    ensures forall j :: 0 <= j < BitLength(c) ==> ((Pow2(j) - 1) as real) < q
  {
    forall j | 0 <= j < BitLength(c)
      ensures ((Pow2(j) - 1) as real) < q
    {
      Pow2Monotone(j, BitLength(c) - 1);
    }
  }

  /** The bit width per variable: the smallest k whose decoding step
      (end - start) / (2^k - 1) is at most the precision, i.e. the least k with
      2^k - 1 >= (end - start) / precision. */
  function BitsFor(start: real, end: real, precision: real): (k: nat)
    requires start < end && precision > 0.0
    ensures k >= 1
    ensures (Pow2(k) - 1) as real >= (end - start) / precision
    ensures (end - start) / ((Pow2(k) - 1) as real) <= precision
    ensures forall j :: 0 <= j < k ==> ((Pow2(j) - 1) as real) < (end - start) / precision
  {
    var q := (end - start) / precision;
    var k := BitLength(CeilNat(q));
    StepWithin(end - start, (Pow2(k) - 1) as real, precision);
    BelowBitLength(CeilNat(q), q);
    k
  }
}
