/**
 * The Mean Kinetic Temperature and statistics engine (MktCalculatorService).
 *
 *   MKT = -(ΔH/R) / ln( (Σ exp(-(ΔH/R) / T_i)) / n )      with T_i in Kelvin
 *
 * Temperatures are reals. `exp` and `ln` cannot be evaluated here, so they are
 * a parameter `Transcendental`; the only fact the proofs use about them is
 * `LnInvertsExp`: ln(exp(x)) == x. PHP 8's `/` throws DivisionByZeroError on a
 * zero divisor; the model returns `Failure(DivisionByZero)` there.
 */
module MktCalculator {
  import opened Wrappers
  import opened Entities
  import PhpText

  const DefaultActivationEnergy: real := 83.144  // kJ/mol
  const GasConstant: real := 8.314               // J/(mol·K)
  const GasConstantKJ: real := GasConstant / 1000.0
  const KelvinOffset: real := 273.15

  datatype MktError =
    | EmptyTemperatureArray  // InvalidArgumentException, "Temperature array cannot be empty"
    | NoReadings             // InvalidArgumentException, "Dataset must have temperature readings to calculate MKT"
    | DivisionByZero         // DivisionByZeroError: a reading at 0 K, or ln(average) == 0

  datatype Transcendental = Transcendental(exp: real -> real, ln: real -> real)

  ghost predicate LnInvertsExp(t: Transcendental)
  {
    forall x :: t.ln(t.exp(x)) == x
  }

  /** Celsius is Kelvin shifted by the offset; a positive Kelvin value is exactly one above absolute zero. */
  function KelvinToCelsius(k: real): (c: real)
    ensures c + KelvinOffset == k
    ensures k > 0.0 <==> c > -KelvinOffset
  {
    k - KelvinOffset
  }

  function CelsiusToKelvin(c: real): (k: real)
    ensures KelvinToCelsius(k) == c
  {
    c + KelvinOffset
  }

  lemma KelvinCelsiusRoundTrip(k: real)
    ensures CelsiusToKelvin(KelvinToCelsius(k)) == k
  {
  }

  /** A temperature is valid exactly when it is a positive absolute temperature. */
  function IsValidTemperature(t: real): (valid: bool)
    ensures valid <==> CelsiusToKelvin(t) > 0.0
  {
    t > -273.15
  }

  predicate NoZeroKelvin(temps: seq<real>)
  {
    forall i :: 0 <= i < |temps| ==> CelsiusToKelvin(temps[i]) != 0.0
  }

  /** The Arrhenius exponent -(ΔH/R) · 1/T for one Celsius temperature. */
  function Exponent(celsius: real, activationEnergy: real): real
    requires CelsiusToKelvin(celsius) != 0.0
  {
    -(activationEnergy / GasConstantKJ) * (1.0 / CelsiusToKelvin(celsius))
  }

  /** The accumulated sum of exponentials, in iteration order. */
  function SumExponentials(temps: seq<real>, activationEnergy: real, t: Transcendental): real
    requires NoZeroKelvin(temps)
  {
    if |temps| == 0 then 0.0
    else SumExponentials(temps[..|temps| - 1], activationEnergy, t)
         + t.exp(Exponent(temps[|temps| - 1], activationEnergy))
  }

  /** What `calculateMktFromArray` returns or throws, in °C. */
  function MktFromArray(temps: seq<real>, activationEnergy: real, t: Transcendental): Result<real, MktError>
  {
    if |temps| == 0 then Failure(EmptyTemperatureArray)
    else if !NoZeroKelvin(temps) then Failure(DivisionByZero)
    else MktOfSum(SumExponentials(temps, activationEnergy, t), |temps|, activationEnergy, t)
  }

  /** The closing formula over the accumulated sum of `count` exponentials. */
  function MktOfSum(sum: real, count: nat, activationEnergy: real, t: Transcendental): Result<real, MktError>
    requires count > 0
  {
    var l := t.ln(sum / count as real);
    if l == 0.0 then Failure(DivisionByZero)
    else Success(KelvinToCelsius(-(activationEnergy / GasConstantKJ) * (1.0 / l)))
  }

  /** `(float) $dataset->getActivationEnergy() ?: 83.144`. */
  function EffectiveActivationEnergy(stored: string): (e: real)
    ensures e != 0.0
    ensures PhpText.FloatCast(stored) != 0.0 ==> e == PhpText.FloatCast(stored)
    ensures PhpText.FloatCast(stored) == 0.0 ==> e == DefaultActivationEnergy
  {
    var cast := PhpText.FloatCast(stored);
    if cast != 0.0 then cast else DefaultActivationEnergy
  }

  /** The temperatures of a collection of readings, in collection order. */
  function Temperatures(rs: seq<TemperatureReading>): (ts: seq<real>)
    reads rs
    ensures |ts| == |rs|
    ensures forall i :: 0 <= i < |rs| ==> ts[i] == rs[i].temperature
  {
    seq(|rs|, i reads rs requires 0 <= i < |rs| => rs[i].temperature)
  }

  method CalculateMktFromArray(temps: seq<real>, activationEnergy: real, t: Transcendental)
    returns (r: Result<real, MktError>)
    ensures r == MktFromArray(temps, activationEnergy, t)
  {
    if |temps| == 0 {
      return Failure(EmptyTemperatureArray);
    }
    var sum := 0.0;
    var i := 0;
    while i < |temps|
      invariant 0 <= i <= |temps|
      invariant NoZeroKelvin(temps[..i])
      invariant sum == SumExponentials(temps[..i], activationEnergy, t)
    {
      var kelvin := CelsiusToKelvin(temps[i]);
      if kelvin == 0.0 {
        return Failure(DivisionByZero);
      }
      sum := sum + t.exp(Exponent(temps[i], activationEnergy));
      SumExponentialsStep(temps, i, activationEnergy, t);
      i := i + 1;
    }
    assert temps[..i] == temps;
    assert NoZeroKelvin(temps);
    r := CloseMkt(sum, |temps|, activationEnergy, t);
  }

  /**
   * What `calculateMkt` yields for a dataset's readings and stored activation
   * energy: an empty collection is rejected before any arithmetic.
   */
  function DatasetMkt(readings: seq<TemperatureReading>, activationEnergy: string, t: Transcendental): Result<real, MktError>
    reads readings
  {
    if |readings| == 0 then Failure(NoReadings)
    else MktFromArray(Temperatures(readings), EffectiveActivationEnergy(activationEnergy), t)
  }

  /**
   * MKT of a dataset: an empty collection is rejected before any arithmetic;
   * otherwise it is the array formula over the readings' temperatures in
   * collection order, with the dataset's effective activation energy.
   */
  method CalculateMkt(dataset: Dataset, t: Transcendental) returns (r: Result<real, MktError>)
    ensures r == DatasetMkt(dataset.readings, dataset.activationEnergy, t)
  {
    var readings := dataset.readings;
    if |readings| == 0 {
      return Failure(NoReadings);
    }
    var activationEnergy := EffectiveActivationEnergy(dataset.activationEnergy);
    ghost var temps := Temperatures(readings);
    ghost var expected := MktFromArray(temps, activationEnergy, t);
    assert DatasetMkt(readings, dataset.activationEnergy, t) == expected;
    var sum := 0.0;
    var count := 0;
    while count < |readings|
      invariant 0 <= count <= |readings|
      invariant NoZeroKelvin(temps[..count])
      invariant sum == SumExponentials(temps[..count], activationEnergy, t)
    {
      var temperature := readings[count].temperature;
      assert temperature == temps[count];
      var kelvin := CelsiusToKelvin(temperature);
      if kelvin == 0.0 {
        return Failure(DivisionByZero);
      }
      sum := sum + t.exp(Exponent(temperature, activationEnergy));
      SumExponentialsStep(temps, count, activationEnergy, t);
      count := count + 1;
    }
    assert temps[..count] == temps;
    assert NoZeroKelvin(temps);
    r := CloseMkt(sum, count, activationEnergy, t);
  }

  /** The closing lines shared by both entry points: average, log, the final division, back to °C. */
  method CloseMkt(sum: real, count: nat, activationEnergy: real, t: Transcendental) returns (r: Result<real, MktError>)
    requires count > 0
    ensures r == MktOfSum(sum, count, activationEnergy, t)
  {
    var average := sum / count as real;
    var l := t.ln(average);
    if l == 0.0 {
      return Failure(DivisionByZero);
    }
    var mkt := -(activationEnergy / GasConstantKJ) * (1.0 / l);
    assert MktOfSum(sum, count, activationEnergy, t).value == KelvinToCelsius(mkt);
    return Success(KelvinToCelsius(mkt));
  }

  /** One more loop iteration adds the next reading's exponential. */
  lemma SumExponentialsStep(temps: seq<real>, i: nat, activationEnergy: real, t: Transcendental)
    requires i < |temps| && NoZeroKelvin(temps[..i]) && CelsiusToKelvin(temps[i]) != 0.0
    ensures NoZeroKelvin(temps[..i + 1])
    ensures SumExponentials(temps[..i + 1], activationEnergy, t)
         == SumExponentials(temps[..i], activationEnergy, t) + t.exp(Exponent(temps[i], activationEnergy))
  {
    assert temps[..i + 1][..i] == temps[..i];
  }

  lemma {:induction false} SumExponentialsOfConstant(temps: seq<real>, c: real, activationEnergy: real, t: Transcendental)
    requires forall i :: 0 <= i < |temps| ==> temps[i] == c
    requires CelsiusToKelvin(c) != 0.0
    ensures NoZeroKelvin(temps)
    ensures SumExponentials(temps, activationEnergy, t) == |temps| as real * t.exp(Exponent(c, activationEnergy))
  {
    if |temps| > 0 {
      SumExponentialsOfConstant(temps[..|temps| - 1], c, activationEnergy, t);
    }
  }

  /** For n identical temperatures c, MKT is c itself: no special case is needed. */
  lemma ConstantTemperaturesGiveThatTemperature(temps: seq<real>, c: real, activationEnergy: real, t: Transcendental)
    requires LnInvertsExp(t)
    requires |temps| > 0 && forall i :: 0 <= i < |temps| ==> temps[i] == c
    requires CelsiusToKelvin(c) != 0.0 && activationEnergy != 0.0
    ensures MktFromArray(temps, activationEnergy, t) == Success(c)
  {
    SumExponentialsOfConstant(temps, c, activationEnergy, t);
    var n := |temps| as real;
    var k := CelsiusToKelvin(c);
    var a := activationEnergy / GasConstantKJ;
    var x := Exponent(c, activationEnergy);
    assert x == -a * (1.0 / k);
    var average := SumExponentials(temps, activationEnergy, t) / n;
    assert average == t.exp(x);
    assert t.ln(average) == x;
    assert a != 0.0;
    assert x * k == -a;
    assert x != 0.0;
    assert -a * (1.0 / x) == k by {
      assert -a == x * k;
      assert (x * k) * (1.0 / x) == k * (x * (1.0 / x));
    }
    assert MktFromArray(temps, activationEnergy, t).value == KelvinToCelsius(k);
  }

  /**
   * With activation energy 0 every exponent is 0, the average is exp(0) and
   * ln of it is 0: the final division throws.
   */
  lemma ZeroActivationEnergyDividesByZero(temps: seq<real>, t: Transcendental)
    requires LnInvertsExp(t)
    requires |temps| > 0 && NoZeroKelvin(temps)
    ensures MktFromArray(temps, 0.0, t) == Failure(DivisionByZero)
  {
    SumExponentialsOfZeroEnergy(temps, t);
    assert SumExponentials(temps, 0.0, t) / |temps| as real == t.exp(0.0);
  }

  lemma {:induction false} SumExponentialsOfZeroEnergy(temps: seq<real>, t: Transcendental)
    requires NoZeroKelvin(temps)
    ensures SumExponentials(temps, 0.0, t) == |temps| as real * t.exp(0.0)
  {
    if |temps| > 0 {
      var init := temps[..|temps| - 1];
      assert NoZeroKelvin(init);
      SumExponentialsOfZeroEnergy(init, t);
      assert Exponent(temps[|temps| - 1], 0.0) == 0.0;
    }
  }

  /** A dataset's MKT never divides by a zero activation energy: 0 falls back to the default. */
  lemma DatasetActivationEnergyFallback(stored: string)
    requires PhpText.FloatCast(stored) == 0.0
    ensures EffectiveActivationEnergy(stored) == 83.144
  {
  }

  // ---------------------------------------------------------------- statistics

  /**
   * The statistics snapshot. `variance` is the population variance
   * sumSquares / count; the source reports its square root.
   */
  datatype Statistics = Statistics(
    count: nat,
    min: Option<real>,
    max: Option<real>,
    average: Option<real>,
    variance: Option<real>)

  /** `array_sum`. */
  function Sum(s: seq<real>): real
  {
    if |s| == 0 then 0.0 else Sum(s[..|s| - 1]) + s[|s| - 1]
  }

  /** `min()` of a non-empty array. */
  function SeqMin(s: seq<real>): (m: real)
    requires |s| > 0
    ensures m in s
    ensures forall i :: 0 <= i < |s| ==> m <= s[i]
  {
    if |s| == 1 then s[0]
    else
      var m := SeqMin(s[..|s| - 1]);
      if s[|s| - 1] < m then s[|s| - 1] else m
  }

  /** `max()` of a non-empty array. */
  function SeqMax(s: seq<real>): (m: real)
    requires |s| > 0
    ensures m in s
    ensures forall i :: 0 <= i < |s| ==> s[i] <= m
  {
    if |s| == 1 then s[0]
    else
      var m := SeqMax(s[..|s| - 1]);
      if s[|s| - 1] > m then s[|s| - 1] else m
  }

  /** `pow(d, 2)`. */
  function Square(d: real): (sq: real)
    ensures sq >= 0.0
  {
    if d < 0.0 then (-d) * (-d) else d * d
  }

  /** Σ (x - average)², accumulated in order. */
  function SumSquares(s: seq<real>, average: real): real
  {
    if |s| == 0 then 0.0
    else SumSquares(s[..|s| - 1], average) + Square(s[|s| - 1] - average)
  }

  /** What `calculateStatistics` returns for a list of temperatures. */
  function StatisticsOf(temps: seq<real>): (st: Statistics)
    ensures st.count == |temps|
  {
    if |temps| == 0 then Statistics(0, None, None, None, None)
    else
      var n := |temps| as real;
      var average := Sum(temps) / n;
      Statistics(|temps|, Some(SeqMin(temps)), Some(SeqMax(temps)), Some(average),
                 Some(SumSquares(temps, average) / n))
  }

  method CalculateStatistics(dataset: Dataset) returns (stats: Statistics)
    ensures stats == StatisticsOf(Temperatures(dataset.readings))
  {
    var readings := dataset.readings;
    var temperatures: seq<real> := [];
    var i := 0;
    while i < |readings|
      invariant 0 <= i <= |readings|
      invariant temperatures == Temperatures(readings)[..i]
    {
      temperatures := temperatures + [readings[i].temperature];
      i := i + 1;
    }
    assert temperatures == Temperatures(readings);
    if |temperatures| == 0 {
      return Statistics(0, None, None, None, None);
    }
    var count := |temperatures|;
    var sum := Sum(temperatures);
    var min := SeqMin(temperatures);
    var max := SeqMax(temperatures);
    var average := sum / count as real;
    var sumSquares := 0.0;
    var j := 0;
    while j < count
      invariant 0 <= j <= count
      invariant sumSquares == SumSquares(temperatures[..j], average)
    {
      assert temperatures[..j + 1][..j] == temperatures[..j];
      sumSquares := sumSquares + Square(temperatures[j] - average);
      j := j + 1;
    }
    assert temperatures[..j] == temperatures;
    return Statistics(count, Some(min), Some(max), Some(average), Some(sumSquares / count as real));
  }

  lemma {:induction false} SumAtLeast(s: seq<real>, lo: real)
    requires forall i :: 0 <= i < |s| ==> lo <= s[i]
    ensures |s| as real * lo <= Sum(s)
  {
    if |s| > 0 {
      SumAtLeast(s[..|s| - 1], lo);
      assert |s| as real * lo == (|s| - 1) as real * lo + lo;
    }
  }

  lemma {:induction false} SumAtMost(s: seq<real>, hi: real)
    requires forall i :: 0 <= i < |s| ==> s[i] <= hi
    ensures Sum(s) <= |s| as real * hi
  {
    if |s| > 0 {
      SumAtMost(s[..|s| - 1], hi);
      assert |s| as real * hi == (|s| - 1) as real * hi + hi;
    }
  }

  lemma {:induction false} SumSquaresNonNegative(s: seq<real>, average: real)
    ensures SumSquares(s, average) >= 0.0
  {
    if |s| > 0 {
      SumSquaresNonNegative(s[..|s| - 1], average);
    }
  }

  /** An empty list yields count 0 and no aggregates; nothing is divided. */
  lemma StatisticsOfNothing()
    ensures StatisticsOf([]) == Statistics(0, None, None, None, None)
  {
  }

  /**
   * For readings present: count is their number, min and max are readings,
   * min <= average <= max, and the variance is non-negative.
   */
  lemma StatisticsBounds(temps: seq<real>)
    requires |temps| > 0
    ensures var st := StatisticsOf(temps);
      && st.count == |temps|
      && st.min.Some? && st.max.Some? && st.average.Some? && st.variance.Some?
      && st.min.value in temps && st.max.value in temps
      && st.min.value <= st.average.value <= st.max.value
      && st.variance.value >= 0.0
  {
    var n := |temps| as real;
    var average := Sum(temps) / n;
    var st := StatisticsOf(temps);
    assert st == Statistics(|temps|, Some(SeqMin(temps)), Some(SeqMax(temps)), Some(average),
                            Some(SumSquares(temps, average) / n));
    AverageWithinRange(temps, SeqMin(temps), SeqMax(temps));
    SumSquaresNonNegative(temps, average);
    QuotientNonNegative(SumSquares(temps, average), n);
  }

  /** The average of values within [lo, hi] lies within [lo, hi]. */
  lemma AverageWithinRange(temps: seq<real>, lo: real, hi: real)
    requires |temps| > 0
    requires forall i :: 0 <= i < |temps| ==> lo <= temps[i] <= hi
    ensures lo <= Sum(temps) / (|temps| as real) <= hi
  {
    var n := |temps| as real;
    SumAtLeast(temps, lo);
    SumAtMost(temps, hi);
    QuotientBounds(Sum(temps), n, lo, hi);
  }

  lemma QuotientNonNegative(x: real, n: real)
    requires x >= 0.0 && n > 0.0
    ensures x / n >= 0.0
  {
  }

  lemma QuotientBounds(sum: real, n: real, lo: real, hi: real)
    requires n > 0.0 && n * lo <= sum <= n * hi
    ensures lo <= sum / n <= hi
  {
    var q := sum / n;
    assert q * n == sum;
    assert (q - lo) * n >= 0.0 && (hi - q) * n >= 0.0;
  }
}
