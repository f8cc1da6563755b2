/** The statistics over the runs of utils/bench-scheduler.cc: a one-pass accumulation of mean
    and second moment, proved equal to the two-pass definitions, over the reals. */
module BenchStats {
  import opened Common

  datatype PhaseResult = PhaseResult(time: real, rate: real, period: real)

  datatype Result = Result(init: PhaseResult, run: PhaseResult)

  datatype Field = InitTime | InitRate | InitPeriod | RunTime | RunRate | RunPeriod

  function Get(r: Result, f: Field): real {
    match f
    case InitTime => r.init.time
    case InitRate => r.init.rate
    case InitPeriod => r.init.period
    case RunTime => r.run.time
    case RunRate => r.run.rate
    case RunPeriod => r.run.period
  }

  function Samples(results: seq<Result>, f: Field): seq<real> {
    seq(|results|, i requires 0 <= i < |results| => Get(results[i], f))
  }

  // ---------- The two-pass definitions ----------

  function Sum(xs: seq<real>): real {
    if xs == [] then 0.0 else Sum(xs[..|xs| - 1]) + xs[|xs| - 1]
  }

  function Mean(xs: seq<real>): real
    requires xs != []
  {
    Sum(xs) / |xs| as real
  }

  /** The sum of the squared deviations from m. */
  function Deviations(xs: seq<real>, m: real): real {
    if xs == [] then 0.0 else Deviations(xs[..|xs| - 1], m) + (xs[|xs| - 1] - m) * (xs[|xs| - 1] - m)
  }

  lemma {:induction false} DeviationsAreNatural(xs: seq<real>, m: real)
    ensures Deviations(xs, m) >= 0.0
  {
    if xs != [] {
      DeviationsAreNatural(xs[..|xs| - 1], m);
      var d := xs[|xs| - 1] - m;
      assert d * d >= 0.0;
    }
  }

  function Squares(xs: seq<real>): real {
    if xs == [] then 0.0 else Squares(xs[..|xs| - 1]) + xs[|xs| - 1] * xs[|xs| - 1]
  }

  /** The products of the samples with one number. */
  function Scaled(xs: seq<real>, m: real): real {
    if xs == [] then 0.0 else Scaled(xs[..|xs| - 1], m) + m * xs[|xs| - 1]
  }

  function Repeated(n: nat, c: real): real {
    if n == 0 then 0.0 else Repeated(n - 1, c) + c
  }

  lemma Binomial(x: real, m: real)
    ensures (x - m) * (x - m) == x * x - 2.0 * (m * x) + m * m
  {
  }

  lemma {:induction false} DeviationsSplit(xs: seq<real>, m: real)
    ensures Deviations(xs, m) == Squares(xs) - 2.0 * Scaled(xs, m) + Repeated(|xs|, m * m)
  {
    if xs != [] {
      DeviationsSplit(xs[..|xs| - 1], m);
      Binomial(xs[|xs| - 1], m);
    }
  }

  lemma Distribute(m: real, s: real, x: real)
    ensures m * (s + x) == m * s + m * x
  {
  }

  lemma {:induction false} ScaledIsProduct(xs: seq<real>, m: real)
    ensures Scaled(xs, m) == m * Sum(xs)
  {
    if xs != [] {
      ScaledIsProduct(xs[..|xs| - 1], m);
      Distribute(m, Sum(xs[..|xs| - 1]), xs[|xs| - 1]);
    }
  }

  lemma {:induction false} RepeatedIsProduct(n: nat, c: real)
    ensures Repeated(n, c) == n as real * c
  {
    if n > 0 {
      RepeatedIsProduct(n - 1, c);
      Distribute(c, (n - 1) as real, 1.0);
    }
  }

  /** The deviations from the mean. */
  lemma DeviationsFromMean(xs: seq<real>, m: real)
    requires |xs| as real * m == Sum(xs)
    ensures Deviations(xs, m) == Squares(xs) - |xs| as real * (m * m)
  {
    DeviationsSplit(xs, m);
    ScaledIsProduct(xs, m);
    RepeatedIsProduct(|xs|, m * m);
    AtMean(Sum(xs), |xs| as real, m);
  }

  lemma AtMean(s: real, n: real, m: real)
    requires n * m == s
    ensures m * s == n * (m * m)
  {
  }

  /** One round of the accumulation keeps n times the average at the sum and the moment at
      the deviations from the average, both expressed by sum and sum of squares. */
  lemma WelfordStep(n: real, s: real, q: real, a: real, v: real, x: real, a': real, v': real)
    requires n >= 0.0 && n * a == s && v == q - n * (a * a)
    requires a' == a + (x - a) / (n + 1.0) && v' == v + (x - a) * (x - a')
    ensures (n + 1.0) * a' == s + x && v' == (q + x * x) - (n + 1.0) * (a' * a')
  {
    NewAverage(n, s, a, x, a');
    assert (x - a) * (x - a') == x * x - x * a' - a * (x - a');
    assert (n + 1.0) * (a' * a') == ((n + 1.0) * a') * a' == (s + x) * a' == n * (a * a') + x * a';
    assert a * (x - a') == n * (a * a') - n * (a * a) by {
      assert x - a' == n * a' - n * a;
      assert a * (n * a' - n * a) == n * (a * a') - n * (a * a);
    }
  }

  lemma NewAverage(n: real, s: real, a: real, x: real, a': real)
    requires n >= 0.0 && n * a == s && a' == a + (x - a) / (n + 1.0)
    ensures (n + 1.0) * a' == s + x && x - a' == n * a' - n * a
  {
    var e := (x - a) / (n + 1.0);
    assert (n + 1.0) * e == x - a;
    assert (n + 1.0) * (a + e) == n * a + a + (n + 1.0) * e;
    assert n * a' == n * a + n * e;
  }

  // ---------- The one-pass accumulation ----------

  /** The two values after the first n samples; before the first one the average is already
      that sample. */
  ghost predicate Accumulated(xs: seq<real>, n: nat, average: real, moment2: real)
    requires n <= |xs|
  {
    n as real * average == Sum(xs[..n]) && moment2 == Squares(xs[..n]) - n as real * (average * average)
  }

  /** The macro of the original, for one field: from the values of the samples before this
      one to those with it. */
  method Accumulate(ghost xs: seq<real>, sample: real, average: real, moment2: real, count: nat)
    returns (average': real, moment2': real)
    requires 0 < count <= |xs| && sample == xs[count - 1] && Accumulated(xs, count - 1, average, moment2)
    ensures Accumulated(xs, count, average', moment2')
  {
    var deltaPre := sample - average;
    average' := average + deltaPre / count as real;
    var deltaPost := sample - average';
    moment2' := moment2 + deltaPre * deltaPost;
    AccumulatedStep(xs, count - 1, average, moment2, average', moment2');
  }

  lemma AccumulatedStep(xs: seq<real>, n: nat, average: real, moment2: real, average': real, moment2': real)
    requires n < |xs| && Accumulated(xs, n, average, moment2)
    requires average' == average + (xs[n] - average) / (n + 1) as real
    requires moment2' == moment2 + (xs[n] - average) * (xs[n] - average')
    ensures Accumulated(xs, n + 1, average', moment2')
  {
    assert xs[..n + 1][..n] == xs[..n];
    assert (n + 1) as real == n as real + 1.0;
    WelfordStep(n as real, Sum(xs[..n]), Squares(xs[..n]), average, moment2, xs[n], average', moment2');
  }

  /** In the end these are the mean and the deviations from it. */
  lemma AccumulatedAll(xs: seq<real>, average: real, moment2: real)
    requires xs != [] && Accumulated(xs, |xs|, average, moment2)
    ensures average == Mean(xs) && moment2 == Deviations(xs, Mean(xs))
  {
    assert xs[..|xs|] == xs;
    assert average == Sum(xs) / |xs| as real;
    DeviationsFromMean(xs, average);
  }

  /** All three fields of one phase; `init` tells which phase. */
  ghost predicate PhaseAccumulated(results: seq<Result>, n: nat, init: bool, a: PhaseResult, m: PhaseResult)
    requires n <= |results|
  {
    && Accumulated(Samples(results, if init then InitTime else RunTime), n, a.time, m.time)
    && Accumulated(Samples(results, if init then InitRate else RunRate), n, a.rate, m.rate)
    && Accumulated(Samples(results, if init then InitPeriod else RunPeriod), n, a.period, m.period)
  }

  /** The three uses of the macro for one phase. */
  method AccumulatePhase(ghost results: seq<Result>, ghost init: bool, run: PhaseResult,
                         a: PhaseResult, m: PhaseResult, count: nat)
    returns (a': PhaseResult, m': PhaseResult)
    requires 0 < count <= |results| && run == if init then results[count - 1].init else results[count - 1].run
    requires PhaseAccumulated(results, count - 1, init, a, m)
    ensures PhaseAccumulated(results, count, init, a', m')
  {
    var at, mt := Accumulate(Samples(results, if init then InitTime else RunTime), run.time, a.time, m.time, count);
    var ar, mr := Accumulate(Samples(results, if init then InitRate else RunRate), run.rate, a.rate, m.rate, count);
    var ap, mp := Accumulate(Samples(results, if init then InitPeriod else RunPeriod), run.period, a.period, m.period, count);
    a', m' := PhaseResult(at, ar, ap), PhaseResult(mt, mr, mp);
  }

  /** A square root of every number that has one. */
  ghost predicate IsSquareRoot(sqrt: real -> real) {
    forall x :: x >= 0.0 ==> sqrt(x) >= 0.0 && sqrt(x) * sqrt(x) == x
  }

  /** What is logged for one field: the mean, and the root of the mean squared deviation from it. */
  ghost predicate IsMeanAndDeviation(xs: seq<real>, average: real, stdev: real)
    requires xs != []
  {
    average == Mean(xs) && stdev >= 0.0 && stdev * stdev == Deviations(xs, Mean(xs)) / |xs| as real
  }

  lemma FieldDone(xs: seq<real>, average: real, moment2: real, sqrt: real -> real)
    requires xs != [] && Accumulated(xs, |xs|, average, moment2) && IsSquareRoot(sqrt)
    ensures IsMeanAndDeviation(xs, average, sqrt(moment2 / |xs| as real))
  {
    AccumulatedAll(xs, average, moment2);
    DeviationsAreNatural(xs, Mean(xs));
    assert moment2 / |xs| as real >= 0.0;
  }

  method LogPhase(ghost results: seq<Result>, ghost init: bool, a: PhaseResult, m: PhaseResult, n: nat,
                  sqrt: real -> real)
    returns (stdev: PhaseResult)
    requires n == |results| > 0 && PhaseAccumulated(results, n, init, a, m) && IsSquareRoot(sqrt)
    ensures IsMeanAndDeviation(Samples(results, if init then InitTime else RunTime), a.time, stdev.time)
    ensures IsMeanAndDeviation(Samples(results, if init then InitRate else RunRate), a.rate, stdev.rate)
    ensures IsMeanAndDeviation(Samples(results, if init then InitPeriod else RunPeriod), a.period, stdev.period)
  {
    var k := n as real;
    stdev := PhaseResult(sqrt(m.time / k), sqrt(m.rate / k), sqrt(m.period / k));
    FieldDone(Samples(results, if init then InitTime else RunTime), a.time, m.time, sqrt);
    FieldDone(Samples(results, if init then InitRate else RunRate), a.rate, m.rate, sqrt);
    FieldDone(Samples(results, if init then InitPeriod else RunPeriod), a.period, m.period, sqrt);
  }

  /** Average and standard deviation of every field; nothing for fewer than two runs. */
  method Log(results: seq<Result>, sqrt: real -> real) returns (stats: Option<(Result, Result)>)
    requires IsSquareRoot(sqrt)
    ensures stats.Some? <==> |results| >= 2
    ensures stats.Some? ==> forall f: Field ::
      IsMeanAndDeviation(Samples(results, f), Get(stats.value.0, f), Get(stats.value.1, f))
  {
    if |results| < 2 {
      return None;
    }
    var a := results[0];
    var m := Result(PhaseResult(0.0, 0.0, 0.0), PhaseResult(0.0, 0.0, 0.0));
    var n := 0;
    while n < |results|
      invariant 0 <= n <= |results|
      invariant PhaseAccumulated(results, n, true, a.init, m.init)
      invariant PhaseAccumulated(results, n, false, a.run, m.run)
    {
      var run := results[n];
      var count := n + 1;
      var ai, mi := AccumulatePhase(results, true, run.init, a.init, m.init, count);
      var ar, mr := AccumulatePhase(results, false, run.run, a.run, m.run, count);
      a, m := Result(ai, ar), Result(mi, mr);
      n := count;
    }
    var init := LogPhase(results, true, a.init, m.init, n, sqrt);
    var run := LogPhase(results, false, a.run, m.run, n, sqrt);
    return Some((a, Result(init, run)));
  }
}
