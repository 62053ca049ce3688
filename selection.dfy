/** Roulette-wheel selection. Each individual owns a slice of a 360-degree
    wheel proportional to its share of the total fitness; a draw r in
    [0, 360] selects the first individual whose cumulative bound is at least
    r. The draws are inputs. Arithmetic is exact. */
module Selection {
  import opened Fitness

  function Sum(xs: seq<real>): real {
    if |xs| == 0 then 0.0 else Sum(xs[..|xs| - 1]) + xs[|xs| - 1]
  }

  function Fitnesses(scores: seq<Scored>): (fs: seq<real>)
    ensures |fs| == |scores|
  {
    seq(|scores|, i requires 0 <= i < |scores| => scores[i].1)
  }

  /** The wheel can be built: the population is not empty and every fitness
      is positive, so the total is positive (the zero-total branch of the
      source cannot be taken). */
  predicate WheelReady(scores: seq<Scored>) {
    |scores| > 0 && forall i :: 0 <= i < |scores| ==> scores[i].1 > 0.0
  }

  /** A strictly positive prefix grows strictly. */
  lemma {:induction false} SumPrefixIncreasing(xs: seq<real>, m: nat, n: nat)
    requires m < n <= |xs|
    requires forall i :: 0 <= i < |xs| ==> xs[i] > 0.0
    ensures Sum(xs[..m]) < Sum(xs[..n])
  {
    assert xs[..n][..n - 1] == xs[..n - 1];
    if m < n - 1 {
      SumPrefixIncreasing(xs, m, n - 1);
    }
  }

  function TotalFitness(scores: seq<Scored>): (total: real)
    requires WheelReady(scores)
    ensures total > 0.0
  {
    var fs := Fitnesses(scores);
    SumPrefixIncreasing(fs, 0, |fs|);
    assert fs[..|fs|] == fs;
    Sum(fs)
  }

  /** Slice sizes in degrees: fitness share times 360. */
  function Pieces(scores: seq<Scored>): (pieces: seq<real>)
    requires WheelReady(scores)
    ensures |pieces| == |scores|
  {
    seq(|scores|, i requires 0 <= i < |scores| => (scores[i].1 / TotalFitness(scores)) * 360.0)
  }

  /** Cumulative upper bound of each individual's slice. */
  function WheelBounds(scores: seq<Scored>): (bounds: seq<real>)
    requires WheelReady(scores)
    ensures |bounds| == |scores|
  {
    seq(|scores|, i requires 0 <= i < |scores| => Sum(Pieces(scores)[..i + 1]))
  }

  lemma DivideSum(a: real, b: real, t: real)
    requires t != 0.0
    ensures (a / t) * 360.0 + (b / t) * 360.0 == ((a + b) / t) * 360.0
  {
    assert a / t + b / t == (a + b) / t;
  }

  /** The first n slices together cover the first n fitnesses' share of 360. */
  lemma {:induction false} PiecesPrefix(scores: seq<Scored>, n: nat)
    requires WheelReady(scores) && n <= |scores|
    ensures Sum(Pieces(scores)[..n]) == (Sum(Fitnesses(scores)[..n]) / TotalFitness(scores)) * 360.0
  {
    var total := TotalFitness(scores);
    if n > 0 {
      PiecesPrefix(scores, n - 1);
      assert Pieces(scores)[..n][..n - 1] == Pieces(scores)[..n - 1];
      assert Fitnesses(scores)[..n][..n - 1] == Fitnesses(scores)[..n - 1];
      DivideSum(Sum(Fitnesses(scores)[..n - 1]), scores[n - 1].1, total);
    }
  }

  /** The bounds increase strictly, since every slice has positive size. */
  lemma WheelIncreasing(scores: seq<Scored>, i: nat, j: nat)
    requires WheelReady(scores) && i < j < |scores|
    ensures WheelBounds(scores)[i] < WheelBounds(scores)[j]
  {
    var pieces := Pieces(scores);
    var total := TotalFitness(scores);
    forall k | 0 <= k < |pieces|
      ensures pieces[k] > 0.0
    {
      assert scores[k].1 / total > 0.0;
    }
    SumPrefixIncreasing(pieces, i + 1, j + 1);
  }

  /** The last bound closes the wheel at exactly 360 degrees. */
  lemma WheelCloses(scores: seq<Scored>)
    requires WheelReady(scores)
    ensures WheelBounds(scores)[|scores| - 1] == 360.0
  {
    var total := TotalFitness(scores);
    PiecesPrefix(scores, |scores|);
    assert Fitnesses(scores)[..|scores|] == Fitnesses(scores);
    assert Pieces(scores)[..|scores| - 1 + 1] == Pieces(scores)[..|scores|];
    assert Sum(Fitnesses(scores)) == total;
    assert total / total == 1.0;
  }

  /** Each slice spans the individual's fitness share of 360 degrees. */
  lemma WheelSlice(scores: seq<Scored>, i: nat)
    requires WheelReady(scores) && i < |scores|
    ensures WheelBounds(scores)[i] - (if i == 0 then 0.0 else WheelBounds(scores)[i - 1])
         == (scores[i].1 / TotalFitness(scores)) * 360.0
  {
    var pieces := Pieces(scores);
    var upTo := pieces[..i + 1];
    assert upTo[..i] == pieces[..i];
    assert Sum(upTo) == Sum(pieces[..i]) + pieces[i];
    if i == 0 {
      assert pieces[..0] == [];
    } else {
      assert WheelBounds(scores)[i - 1] == Sum(pieces[..i]);
    }
  }

  /** Index of the first bound at least r, or |bounds| when there is none. */
  function FirstReaching(bounds: seq<real>, r: real): (i: nat)
    ensures i <= |bounds|
    ensures forall k :: 0 <= k < i ==> bounds[k] < r
    ensures i < |bounds| ==> r <= bounds[i]
  {
    if |bounds| == 0 then 0
    else if r <= bounds[0] then 0
    else 1 + FirstReaching(bounds[1..], r)
  }

  /** The individual one draw selects, or nothing when the draw passes every
      bound. */
  function Pick(scores: seq<Scored>, r: real): (picked: seq<string>)
    requires WheelReady(scores)
    ensures |picked| <= 1
  {
    var i := FirstReaching(WheelBounds(scores), r);
    if i < |scores| then [scores[i].0] else []
  }

  /** The parents a sequence of draws selects, in draw order. */
  function Spin(scores: seq<Scored>, draws: seq<real>): (parents: seq<string>)
    requires WheelReady(scores)
    ensures |parents| <= |draws|
  {
    if |draws| == 0 then [] else Spin(scores, draws[..|draws| - 1]) + Pick(scores, draws[|draws| - 1])
  }

  /** A draw in [0, 360] selects individual i exactly when it lies in i's
      slice: above the previous bound (for i > 0) and at most i's own. */
  lemma PickInSlice(scores: seq<Scored>, r: real, i: nat)
    requires WheelReady(scores) && 0.0 <= r <= 360.0 && i < |scores|
    ensures FirstReaching(WheelBounds(scores), r) == i
        <==> (i == 0 || WheelBounds(scores)[i - 1] < r) && r <= WheelBounds(scores)[i]
  {
    var bounds := WheelBounds(scores);
    var j := FirstReaching(bounds, r);
    WheelCloses(scores);
    if (i == 0 || bounds[i - 1] < r) && r <= bounds[i] {
      if j < i {
        if j < i - 1 {
          WheelIncreasing(scores, j, i - 1);
        }
      }
    }
  }

  /** Draws in [0, 360] each select exactly one member of the population:
      the individual whose slice holds the draw. */
  lemma {:induction false} SpinSelectsOnePerDraw(scores: seq<Scored>, draws: seq<real>)
    requires WheelReady(scores)
    requires forall k :: 0 <= k < |draws| ==> 0.0 <= draws[k] <= 360.0
    ensures |Spin(scores, draws)| == |draws|
    ensures forall k :: 0 <= k < |draws| ==>
      FirstReaching(WheelBounds(scores), draws[k]) < |scores|
      && Spin(scores, draws)[k] == scores[FirstReaching(WheelBounds(scores), draws[k])].0
  {
    if |draws| > 0 {
      var init := draws[..|draws| - 1];
      SpinSelectsOnePerDraw(scores, init);
      WheelCloses(scores);
    }
  }

  /** The wheel as the source lays it out: each individual with the
      cumulative upper bound of its slice. */
  method BuildWheel(scores: seq<Scored>, totalFitness: real) returns (wheel: seq<Scored>)
    requires WheelReady(scores) && totalFitness == TotalFitness(scores)
    ensures |wheel| == |scores|
    ensures forall k :: 0 <= k < |scores| ==> wheel[k] == (scores[k].0, WheelBounds(scores)[k])
  {
    ghost var pieces := Pieces(scores);
    wheel := [];
    var current := 0.0;
    for i := 0 to |scores|
      invariant current == Sum(pieces[..i])
      invariant |wheel| == i
      invariant forall k :: 0 <= k < i ==> wheel[k] == (scores[k].0, WheelBounds(scores)[k])
    {
      var (individual, fitness) := scores[i];
      var pieceSize := (fitness / totalFitness) * 360.0;
      assert pieces[..i + 1] == pieces[..i] + [pieceSize];
      current := current + pieceSize;
      wheel := wheel + [(individual, current)];
    }
  }

  /** The individuals of a scored population. */
  function Members(scores: seq<Scored>): (members: set<string>)
    ensures forall i :: 0 <= i < |scores| ==> scores[i].0 in members
    ensures forall c :: c in members ==> exists i :: 0 <= i < |scores| && scores[i].0 == c
  {
    set i | 0 <= i < |scores| :: scores[i].0
  }

  /** With draws in [0, 360] every draw picks one parent, and each parent is
      an individual of the population. */
  lemma SpinPicksMembers(scores: seq<Scored>, draws: seq<real>)
    requires WheelReady(scores)
    ensures (forall k :: 0 <= k < |draws| ==> 0.0 <= draws[k] <= 360.0) ==>
      |Spin(scores, draws)| == |draws| && forall k :: 0 <= k < |draws| ==> Spin(scores, draws)[k] in Members(scores)
  {
    if forall k :: 0 <= k < |draws| ==> 0.0 <= draws[k] <= 360.0 {
      SpinSelectsOnePerDraw(scores, draws);
    }
  }

  /** One more draw adds the individual of the first bound it reaches, or
      nothing when it passes every bound. */
  lemma SpinStep(scores: seq<Scored>, wheel: seq<Scored>, draws: seq<real>, k: nat, j: nat)
    requires WheelReady(scores) && k < |draws| && j <= |scores| == |wheel|
    requires forall m :: 0 <= m < |scores| ==> wheel[m] == (scores[m].0, WheelBounds(scores)[m])
    requires forall m :: 0 <= m < j ==> wheel[m].1 < draws[k]
    requires j < |scores| ==> draws[k] <= wheel[j].1
    ensures Spin(scores, draws[..k + 1]) == Spin(scores, draws[..k]) + (if j < |scores| then [wheel[j].0] else [])
  {
    FirstReachingUnique(WheelBounds(scores), draws[k], j);
    var prefix := draws[..k + 1];
    assert prefix[..k] == draws[..k] && prefix[k] == draws[k];
    assert Spin(scores, prefix) == Spin(scores, draws[..k]) + Pick(scores, draws[k]);
  }

  /** The first bound a draw reaches is the only index before which every
      bound falls short of it and at which it is reached. */
  lemma FirstReachingUnique(bounds: seq<real>, r: real, j: nat)
    requires j <= |bounds|
    requires forall m :: 0 <= m < j ==> bounds[m] < r
    requires j < |bounds| ==> r <= bounds[j]
    ensures FirstReaching(bounds, r) == j
  {
  }

  /** The scan along the wheel for one draw: the position of the first bound
      the draw does not exceed, or |wheel| when it exceeds them all. */
  method FindSlice(wheel: seq<Scored>, r: real) returns (j: nat)
    ensures j <= |wheel|
    ensures forall m :: 0 <= m < j ==> wheel[m].1 < r
    ensures j < |wheel| ==> r <= wheel[j].1
  {
    j := 0;
    while j < |wheel|
      invariant j <= |wheel|
      invariant forall m :: 0 <= m < j ==> wheel[m].1 < r
    {
      if r <= wheel[j].1 {
        return;
      }
      j := j + 1;
    }
  }

  method SelectParents(scores: seq<Scored>, numParents: nat, draws: seq<real>) returns (parents: seq<string>)
    requires WheelReady(scores) && |draws| == numParents
    ensures parents == Spin(scores, draws)
    ensures (forall k :: 0 <= k < |draws| ==> 0.0 <= draws[k] <= 360.0) ==>
      |parents| == numParents && forall k :: 0 <= k < numParents ==> parents[k] in Members(scores)
  {
    var totalFitness := Sum(Fitnesses(scores));
    var wheel := BuildWheel(scores, totalFitness);

    parents := [];
    for k := 0 to numParents
      invariant parents == Spin(scores, draws[..k])
    {
      var j := FindSlice(wheel, draws[k]);
      SpinStep(scores, wheel, draws, k, j);
      if j < |wheel| {
        parents := parents + [wheel[j].0];
      }
    }
    assert draws[..numParents] == draws;
    SpinPicksMembers(scores, draws);
  }
}
