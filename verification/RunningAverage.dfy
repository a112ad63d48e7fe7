/** The running average over a list of latencies, against the exactly weighted sum. */
module RunningAverage {
  import opened AverageStep
  import opened Doubles
  import opened Text

  /** Twice the average of a list of latencies. */
  function AverageOf(keepsHalf: bool, latencies: seq<nat>): nat {
    if latencies == [] then 0
    else Average(keepsHalf, AverageOf(keepsHalf, latencies[..|latencies| - 1]), latencies[|latencies| - 1])
  }

  function Half(k: nat): (r: real)
    ensures 0.0 < r <= 1.0
  {
    if k == 0 then 1.0 else Half(k - 1) / 2.0
  }

  /** Each latency weighted by a half to the power of its age. */
  function Weighted(latencies: seq<nat>): real {
    if latencies == [] then 0.0 else latencies[0] as real * Half(|latencies|) + Weighted(latencies[1..])
  }

  predicate AtMost(latencies: seq<nat>, bound: nat) { forall i :: 0 <= i < |latencies| ==> latencies[i] <= bound }

  lemma {:induction false} WeightedStep(latencies: seq<nat>, last: nat)
    ensures Weighted(latencies + [last]) == (Weighted(latencies) + last as real) / 2.0
  {
    if latencies == [] {
      assert Half(1) == 0.5;
      assert [last][1..] == [];
      assert latencies + [last] == [last];
    } else {
      var l := latencies + [last];
      assert l[0] == latencies[0] && l[1..] == latencies[1..] + [last];
      WeightedStep(latencies[1..], last);
      HalfOf(latencies[0] as real, |latencies|);
    }
  }

  lemma HalfOf(x: real, k: nat)
    ensures x * Half(k + 1) == x * Half(k) / 2.0
  {
  }

  /** The average of every initial part of the latencies. */
  ghost predicate AlwaysWithin(keepsHalf: bool, latencies: seq<nat>) {
    forall n :: 0 <= n <= |latencies| ==> Within(AverageOf(keepsHalf, latencies[..n]), Weighted(latencies[..n]))
  }

  ghost predicate EveryStepFits(keepsHalf: bool, latencies: seq<nat>) {
    forall n :: 0 <= n < |latencies| ==> StepFitsAt(keepsHalf, latencies, n)
  }

  predicate StepFitsAt(keepsHalf: bool, latencies: seq<nat>, n: nat)
    requires n < |latencies|
  {
    StepFits(AverageOf(keepsHalf, latencies[..n]), Weighted(latencies[..n]), latencies[n])
  }

  lemma {:induction false} AverageOfStored(keepsHalf: bool, latencies: seq<nat>)
    ensures Stored(keepsHalf, AverageOf(keepsHalf, latencies))
  {
    if latencies != [] {
      AverageStored(keepsHalf, AverageOf(keepsHalf, latencies[..|latencies| - 1]), latencies[|latencies| - 1]);
    }
  }

  lemma {:induction false} OneMoreLatency(keepsHalf: bool, latencies: seq<nat>, n: nat)
    requires n < |latencies|
    ensures AverageOf(keepsHalf, latencies[..n + 1])
              == Average(keepsHalf, AverageOf(keepsHalf, latencies[..n]), latencies[n])
    ensures Weighted(latencies[..n + 1]) == (Weighted(latencies[..n]) + latencies[n] as real) / 2.0
  {
    assert latencies[..n + 1] == latencies[..n] + [latencies[n]];
    assert latencies[..n + 1][..n] == latencies[..n];
    WeightedStep(latencies[..n], latencies[n]);
  }

  lemma {:induction false} StepOfRun(keepsHalf: bool, latencies: seq<nat>, n: nat)
    requires n < |latencies| && latencies[n] < TWO64
    requires Within(AverageOf(keepsHalf, latencies[..n]), Weighted(latencies[..n]))
    ensures Within(AverageOf(keepsHalf, latencies[..n + 1]), Weighted(latencies[..n + 1]))
            <==> StepFitsAt(keepsHalf, latencies, n)
  {
    OneMoreLatency(keepsHalf, latencies, n);
    AverageOfStored(keepsHalf, latencies[..n]);
    StepExactly(keepsHalf, AverageOf(keepsHalf, latencies[..n]), Weighted(latencies[..n]), latencies[n]);
  }

  lemma {:induction false} FitsSoFar(keepsHalf: bool, latencies: seq<nat>, n: nat)
    requires n <= |latencies| && AtMost(latencies, TWO64 - 1) && EveryStepFits(keepsHalf, latencies)
    ensures Within(AverageOf(keepsHalf, latencies[..n]), Weighted(latencies[..n]))
  {
    if n > 0 {
      FitsSoFar(keepsHalf, latencies, n - 1);
      StepOfRun(keepsHalf, latencies, n - 1);
    }
  }

  /** The average stays within its bounds all along exactly when every sum fits. */
  lemma {:induction false} AlwaysWithinIff(keepsHalf: bool, latencies: seq<nat>)
    requires AtMost(latencies, TWO64 - 1)
    ensures AlwaysWithin(keepsHalf, latencies) <==> EveryStepFits(keepsHalf, latencies)
  {
    if EveryStepFits(keepsHalf, latencies) {
      forall n | 0 <= n <= |latencies|
        ensures Within(AverageOf(keepsHalf, latencies[..n]), Weighted(latencies[..n]))
      {
        FitsSoFar(keepsHalf, latencies, n);
      }
    }
    if AlwaysWithin(keepsHalf, latencies) {
      forall n | 0 <= n < |latencies|
        ensures StepFitsAt(keepsHalf, latencies, n)
      {
        StepOfRun(keepsHalf, latencies, n);
      }
    }
  }

  /** The sum the average makes of latency `n`, before it wraps. */
  function SumAt(keepsHalf: bool, latencies: seq<nat>, n: nat): nat
    requires n < |latencies|
  {
    AverageOf(keepsHalf, latencies[..n]) / 2 + latencies[n]
  }

  predicate NoWrapAt(keepsHalf: bool, latencies: seq<nat>, n: nat)
    requires n < |latencies|
  {
    SumAt(keepsHalf, latencies, n) < TWO64
  }

  /** The sum left after wrapping is a double. */
  predicate RepresentableAt(keepsHalf: bool, latencies: seq<nat>, n: nat)
    requires n < |latencies|
  {
    ToDouble(SumAt(keepsHalf, latencies, n) % TWO64) == SumAt(keepsHalf, latencies, n) % TWO64
  }

  lemma {:induction false} StepNoWrap(keepsHalf: bool, latencies: seq<nat>, n: nat)
    requires n < |latencies| && RepresentableAt(keepsHalf, latencies, n)
    requires Within(AverageOf(keepsHalf, latencies[..n]), Weighted(latencies[..n]))
    ensures StepFitsAt(keepsHalf, latencies, n) <==> NoWrapAt(keepsHalf, latencies, n)
  {
    AverageOfStored(keepsHalf, latencies[..n]);
    StepFitsIffNoWrap(keepsHalf, AverageOf(keepsHalf, latencies[..n]), Weighted(latencies[..n]), latencies[n]);
  }

  lemma {:induction false} NoWrapSoFar(keepsHalf: bool, latencies: seq<nat>, m: nat)
    requires m <= |latencies| && AtMost(latencies, TWO64 - 1)
    requires forall n :: 0 <= n < m ==> NoWrapAt(keepsHalf, latencies, n) && RepresentableAt(keepsHalf, latencies, n)
    ensures Within(AverageOf(keepsHalf, latencies[..m]), Weighted(latencies[..m]))
  {
    if m > 0 {
      NoWrapSoFar(keepsHalf, latencies, m - 1);
      StepNoWrap(keepsHalf, latencies, m - 1);
      StepOfRun(keepsHalf, latencies, m - 1);
    }
  }

  /** Among latencies whose sums are doubles, the bounds hold all along exactly when no sum wraps. */
  lemma {:induction false} AlwaysWithinIffNoWrap(keepsHalf: bool, latencies: seq<nat>)
    requires AtMost(latencies, TWO64 - 1)
    requires forall n :: 0 <= n < |latencies| ==> RepresentableAt(keepsHalf, latencies, n)
    ensures AlwaysWithin(keepsHalf, latencies)
            <==> forall n :: 0 <= n < |latencies| ==> NoWrapAt(keepsHalf, latencies, n)
  {
    if AlwaysWithin(keepsHalf, latencies) {
      forall n | 0 <= n < |latencies|
        ensures NoWrapAt(keepsHalf, latencies, n)
      {
        StepOfRun(keepsHalf, latencies, n);
        StepNoWrap(keepsHalf, latencies, n);
      }
    }
    if forall n :: 0 <= n < |latencies| ==> NoWrapAt(keepsHalf, latencies, n) {
      forall m | 0 <= m <= |latencies|
        ensures Within(AverageOf(keepsHalf, latencies[..m]), Weighted(latencies[..m]))
      {
        NoWrapSoFar(keepsHalf, latencies, m);
      }
    }
  }

  /** Up to 52 bits the average never exceeds the weighted sum or the largest latency, and is less than one below
      the sum. */
  lemma {:induction false} AverageBounds(keepsHalf: bool, latencies: seq<nat>, bound: nat)
    requires bound <= TWO53 / 2 && AtMost(latencies, bound)
    ensures Within(AverageOf(keepsHalf, latencies), Weighted(latencies))
    ensures AverageOf(keepsHalf, latencies) <= 2 * bound
  {
    if latencies != [] {
      var n := |latencies| - 1;
      AverageBounds(keepsHalf, latencies[..n], bound);
      AverageOfStored(keepsHalf, latencies[..n]);
      SmallStep(keepsHalf, AverageOf(keepsHalf, latencies[..n]), Weighted(latencies[..n]), latencies[n], bound);
      OneMoreLatency(keepsHalf, latencies, n);
      assert latencies[..n + 1] == latencies;
    }
  }

  lemma WeightedOne(latency: nat)
    ensures Weighted([latency]) == latency as real / 2.0
  {
    WeightedStep([], latency);
    assert [] + [latency] == [latency];
  }

  /** A single latency is averaged within the bounds exactly when its nearest double is neither above it nor two or
      more below it. */
  lemma OneLatencyIff(keepsHalf: bool, latency: nat)
    requires latency < TWO64
    ensures Within(AverageOf(keepsHalf, [latency]), Weighted([latency]))
            <==> latency < ToDouble(latency) + 2 && ToDouble(latency) <= latency
  {
    WeightedOne(latency);
    StepExactly(keepsHalf, 0, 0.0, latency);
    CloseTo(latency, ToDouble(latency));
  }

  lemma RoundedUp(n: nat)
    requires n == 2 * TWO53 + 3
    ensures ToDouble(n) == 2 * TWO53 + 4
  {
    assert Doubling(1) == 2 && Doubling(2) == 4;
    SpacingOfRange(n, 2);
    PastMultiples(TWO53 / 4, 3, 4);
  }

  lemma RoundedDown(n: nat)
    requires n == 512 * TWO53 + 511
    ensures ToDouble(n) == 512 * TWO53
  {
    assert Doubling(5) == 32;
    assert Doubling(9) == 512 && Doubling(10) == 1024;
    SpacingOfRange(n, 10);
    PastMultiples(TWO53 / 4, 511, 1024);
  }

  /** The average of a single latency whose double is even. */
  lemma EvenDouble(keepsHalf: bool, n: nat, h: nat)
    requires n < TWO64 && ToDouble(n) == 2 * h
    ensures AverageOf(keepsHalf, [n]) == 2 * h
  {
    WordIsItself(n);
    AverageIs(keepsHalf, 0, n, n, 2 * h);
  }

  /** Rounding to a double leaves the bounds on either side. */
  lemma RoundingLeavesBounds(keepsHalf: bool)
    ensures AverageOf(keepsHalf, [2 * TWO53 + 3]) as real / 2.0 == Weighted([2 * TWO53 + 3]) + 0.5
    ensures AverageOf(keepsHalf, [512 * TWO53 + 511]) as real / 2.0 == Weighted([512 * TWO53 + 511]) - 255.5
  {
    WeightedOne(2 * TWO53 + 3);
    RoundedUp(2 * TWO53 + 3);
    EvenDouble(keepsHalf, 2 * TWO53 + 3, TWO53 + 2);
    WeightedOne(512 * TWO53 + 511);
    RoundedDown(512 * TWO53 + 511);
    EvenDouble(keepsHalf, 512 * TWO53 + 511, 256 * TWO53);
  }

  lemma NextToTheLast(n: nat)
    requires n == TWO64 - 2048
    ensures ToDouble(n) == n
  {
    assert Doubling(5) == 32;
    assert Doubling(10) == 1024 && Doubling(11) == 2048;
    SpacingOfRange(n, 11);
    PastMultiples(TWO53 / 2 - 1, 2048, 2048);
  }

  /** A sum past 64 bits wraps: the average of the two latencies falls to 512, far below both. */
  lemma AverageWraps(keepsHalf: bool)
    ensures AverageOf(keepsHalf, [TWO64 - 2048, TWO64 / 2 + 2048]) == 2 * 512
  {
    var x, y := TWO64 - 2048, TWO64 / 2 + 2048;
    NextToTheLast(x);
    EvenDouble(keepsHalf, x, TWO64 / 2 - 1024);
    WrappedTo1024(keepsHalf, AverageOf(keepsHalf, [x]), y);
  }

}
