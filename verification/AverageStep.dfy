/** One step of the running average: half the old average plus half the new latency, in machine arithmetic. */
module AverageStep {
  import opened Doubles
  import opened Text

  /** The average is kept as a number of halves. Half of `d`, stored in a field that can or cannot hold a half. */
  function Halve(keepsHalf: bool, d: nat): nat { if keepsHalf then d else d - d % 2 }

  /** The old average loses its half; the sum wraps in 64 bits and is rounded to a double before it is halved. */
  function Average(keepsHalf: bool, twice: nat, latency: nat): nat {
    Halve(keepsHalf, ToDouble((twice / 2 + latency) % TWO64))
  }

  /** What the average promises: less than one below the exact value, and never above it. */
  predicate Within(twice: nat, exact: real) { exact - 1.0 < twice as real / 2.0 <= exact }

  /** A sum is good enough for `exact`: not above it, and less than two below it. */
  predicate Close(sum: nat, exact: real) { exact - 2.0 < sum as real <= exact }

  /** The unwrapped sum fits 64 bits, and its conversion to a double stays close to the exact sum. */
  predicate StepFits(twice: nat, exact: real, latency: nat) {
    twice / 2 + latency < TWO64 && Close(ToDouble(twice / 2 + latency), exact + latency as real)
  }

  /** A field without halves holds whole numbers. */
  predicate Stored(keepsHalf: bool, twice: nat) { twice < 2 * TWO64 && (keepsHalf || twice % 2 == 0) }

  lemma HalveWithin(keepsHalf: bool, d: nat, sum: nat, exact: real)
    requires (d % 2 == 1 ==> d == sum) && sum as real <= exact && (!keepsHalf ==> exact < sum as real + 1.0)
    ensures Within(Halve(keepsHalf, d), exact / 2.0) <==> Close(d, exact)
  {
  }

  lemma HalveTooLow(keepsHalf: bool, d: nat, exact: real)
    requires d as real <= exact - 2.0
    ensures !Within(Halve(keepsHalf, d), exact / 2.0)
  {
  }

  /** The sum before rounding. */
  lemma SumClose(keepsHalf: bool, twice: nat, exact: real, latency: nat, sum: nat)
    requires Within(twice, exact) && Stored(keepsHalf, twice) && sum == twice / 2 + latency
    ensures Close(sum, exact + latency as real) && (!keepsHalf ==> exact + latency as real < sum as real + 1.0)
  {
    assert twice == 2 * (twice / 2) + twice % 2;
  }

  lemma AverageStored(keepsHalf: bool, twice: nat, latency: nat)
    ensures Stored(keepsHalf, Average(keepsHalf, twice, latency))
  {
    var d := ToDouble((twice / 2 + latency) % TWO64);
    WordMovesLittle((twice / 2 + latency) % TWO64);
    HalveStored(keepsHalf, d);
  }

  lemma HalveStored(keepsHalf: bool, d: nat)
    requires d < 2 * TWO64
    ensures Stored(keepsHalf, Halve(keepsHalf, d))
  {
  }

  /** The average once its wrapped sum and the conversion of that are known. */
  lemma AverageIs(keepsHalf: bool, twice: nat, latency: nat, sum: nat, d: nat)
    requires sum == (twice / 2 + latency) % TWO64 && ToDouble(sum) == d
    ensures Average(keepsHalf, twice, latency) == Halve(keepsHalf, d)
  {
  }

  lemma WordIsItself(sum: nat)
    requires sum < TWO64
    ensures sum % TWO64 == sum
  {
  }

  lemma PastWord(sum: nat, exact: real)
    requires TWO64 <= sum < 2 * TWO64 && sum as real <= exact
    ensures ToDouble(sum % TWO64) as real <= exact - 2.0
  {
    assert sum % TWO64 == sum - TWO64;
    WordMovesLittle(sum - TWO64);
  }

  /** One step keeps the average within its bounds exactly when the sum neither wraps nor is rounded too far. */
  lemma StepExactly(keepsHalf: bool, twice: nat, exact: real, latency: nat)
    requires Within(twice, exact) && Stored(keepsHalf, twice) && latency < TWO64
    ensures Within(Average(keepsHalf, twice, latency), (exact + latency as real) / 2.0)
            <==> StepFits(twice, exact, latency)
  {
    var sum, x := twice / 2 + latency, exact + latency as real;
    SumClose(keepsHalf, twice, exact, latency, sum);
    AverageIs(keepsHalf, twice, latency, sum % TWO64, ToDouble(sum % TWO64));
    if sum < TWO64 {
      WordIsItself(sum);
      OddIsExact(sum);
      HalveWithin(keepsHalf, ToDouble(sum), sum, x);
    } else {
      PastWord(sum, x);
      HalveTooLow(keepsHalf, ToDouble(sum % TWO64), x);
    }
  }

  /** When the wrapped sum is a double, wrapping is the only way to leave the bounds. */
  lemma StepFitsIffNoWrap(keepsHalf: bool, twice: nat, exact: real, latency: nat)
    requires Within(twice, exact) && Stored(keepsHalf, twice)
    requires ToDouble((twice / 2 + latency) % TWO64) == (twice / 2 + latency) % TWO64
    ensures StepFits(twice, exact, latency) <==> twice / 2 + latency < TWO64
  {
    SumClose(keepsHalf, twice, exact, latency, twice / 2 + latency);
    if twice / 2 + latency < TWO64 {
      WordIsItself(twice / 2 + latency);
    }
  }

  lemma SmallStep(keepsHalf: bool, twice: nat, exact: real, latency: nat, bound: nat)
    requires Within(twice, exact) && Stored(keepsHalf, twice) && twice <= 2 * bound && latency <= bound <= TWO53 / 2
    ensures Within(Average(keepsHalf, twice, latency), (exact + latency as real) / 2.0)
    ensures Average(keepsHalf, twice, latency) <= 2 * bound
  {
    var sum := twice / 2 + latency;
    SmallIsExact(sum);
    WordIsItself(sum);
    AverageIs(keepsHalf, twice, latency, sum, sum);
    SumClose(keepsHalf, twice, exact, latency, sum);
    HalveWithin(keepsHalf, sum, sum, exact + latency as real);
  }

  /** Sums of up to 53 bits: half of the sum exactly, or without the half that does not fit. */
  lemma SmallStepExact(keepsHalf: bool, twice: nat, latency: nat)
    requires twice / 2 + latency <= 0x20_0000_0000_0000
    ensures Average(keepsHalf, twice, latency)
            == if keepsHalf then twice / 2 + latency else 2 * ((twice / 2 + latency) / 2)
  {
    var sum := twice / 2 + latency;
    SmallIsExact(sum);
    WordIsItself(sum);
    AverageIs(keepsHalf, twice, latency, sum, sum);
  }

  lemma CloseTo(latency: nat, d: nat)
    ensures Close(d, 0.0 + latency as real) <==> latency < d + 2 && d <= latency
  {
  }

  lemma WrappedTo1024(keepsHalf: bool, twice: nat, latency: nat)
    requires twice / 2 + latency == TWO64 + 1024
    ensures Average(keepsHalf, twice, latency) == 1024
  {
    SmallIsExact(1024);
    AverageIs(keepsHalf, twice, latency, 1024, 1024);
  }
}
