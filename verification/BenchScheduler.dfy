/** utils/bench-scheduler.cc: the event loop that keeps a constant event population, and the
    statistics over the runs (over real numbers instead of doubles).
 */
module BenchScheduler {

  // ----- Bench: the event population

  /** Bench together with the simulator's event list: the times of the pending events. Of the
      simulator it is assumed that Run executes the earliest pending event until none is left
      or Stop has been called, and that delays are not negative. */
  class Bench {
    const population: nat
    const total: nat
    var count: nat
    var now: nat
    var pending: seq<nat>
    var stopped: bool
    ghost var callbacks: nat

    constructor (population: nat, total: nat)
      ensures this.population == population && this.total == total
    {
      this.population, this.total := population, total;
      count, now, pending, stopped, callbacks := 0, 0, [], false, 0;
    }

    /** No pending event lies in the past, and the population is complete until the stop. */
    ghost predicate Running()
      reads this
    {
      && (forall i :: 0 <= i < |pending| ==> pending[i] >= now)
      && count <= total
      && (if stopped then |pending| + 1 == population && count == total && callbacks == total + 1
          else |pending| == population && callbacks == count)
    }

    method Schedule(delay: nat)
      modifies this`pending
      ensures pending == old(pending) + [now + delay]
    {
      pending := pending + [now + delay];
    }

    /** The event function. It is called with its own event already taken off the list. */
    method Cb()
      requires (forall i :: 0 <= i < |pending| ==> pending[i] >= now)
      requires !stopped && count <= total && |pending| + 1 == population && callbacks == count
      modifies this`count, this`pending, this`stopped, this`callbacks
      ensures Running()
      ensures stopped <==> old(count) == total
      ensures count == if old(count) < total then old(count) + 1 else total
    {
      callbacks := callbacks + 1;
      if count >= total {
        stopped := true;
        return;
      }
      var after: nat :| after >= 0;
      ghost var before := pending;
      Schedule(after);
      assert forall i :: 0 <= i < |before| ==> pending[i] == before[i];
      assert pending[|before|] >= now;
      count := count + 1;
    }

    /** Simulator::Run. Without a population there is nothing to run; otherwise exactly
        total + 1 events are executed, the last of which only stops the simulation. */
    method RunSimulator()
      requires Running() && !stopped && count == 0
      modifies this
      ensures population == 0 ==> count == 0 && callbacks == 0
      ensures population > 0 ==> stopped && count == total && callbacks == total + 1 && |pending| == population - 1
      ensures now >= old(now)
    {
      while pending != [] && !stopped
        invariant Running() && now >= old(now)
        invariant population == 0 ==> count == 0 && !stopped
        decreases total - count, !stopped
      {
        var e := 0;
        for i := 0 to |pending|
          invariant e < |pending|
          invariant forall j :: 0 <= j < i ==> pending[e] <= pending[j]
        {
          if pending[i] < pending[e] { e := i; }
        }
        now := pending[e];
        pending := pending[..e] + pending[e + 1..];
        Cb();
      }
    }

    method Run() returns (events: nat)
      modifies this
      ensures events == count == if population > 0 then total else 0
      ensures callbacks == if population > 0 then total + 1 else 0
    {
      count, now, pending, stopped, callbacks := 0, 0, [], false, 0;
      for i := 0 to population
        invariant |pending| == i && count == 0 && now == 0 && !stopped && callbacks == 0
      {
        var at: nat :| at >= 0;
        Schedule(at);
      }
      RunSimulator();
      events := count;
    }
  }

  // ----- BenchSuite: mean and variance of the runs

  datatype PhaseResult = PhaseResult(time: real, rate: real, period: real)

  datatype Result = Result(init: PhaseResult, run: PhaseResult)

  /** The six numbers of a result. */
  datatype Field = InitTime | InitRate | InitPeriod | RunTime | RunRate | RunPeriod

  function Get(r: Result, f: Field): real {
    match f
    case InitTime => r.init.time
    case InitRate => r.init.rate
    case InitPeriod => r.init.period
    case RunTime => r.run.time
    case RunRate => r.run.rate
    case RunPeriod => r.run.period
  }

  function Sum(results: seq<Result>, f: Field): real {
    if results == [] then 0.0 else Sum(results[..|results| - 1], f) + Get(results[|results| - 1], f)
  }

  function Mean(results: seq<Result>, f: Field): real
    requires results != []
  {
    Sum(results, f) / |results| as real
  }

  /** The sum of the squared deviations from `c`. */
  function Deviations(results: seq<Result>, f: Field, c: real): real {
    if results == [] then 0.0
    else
      var x := Get(results[|results| - 1], f);
      Deviations(results[..|results| - 1], f, c) + (x - c) * (x - c)
  }

  function SumOfSquares(results: seq<Result>, f: Field): real {
    if results == [] then 0.0
    else
      var x := Get(results[|results| - 1], f);
      SumOfSquares(results[..|results| - 1], f) + x * x
  }

  lemma {:induction false} DeviationsExpand(results: seq<Result>, f: Field, c: real)
    ensures Deviations(results, f, c) == Expanded(SumOfSquares(results, f), Sum(results, f), |results| as real, c)
  {
    if results != [] {
      hide Get, Expanded;
      var front, x := results[..|results| - 1], Get(results[|results| - 1], f);
      DeviationsExpand(front, f, c);
      assert |results| as real == |front| as real + 1.0;
      ExpandOne(SumOfSquares(front, f), Sum(front, f), |front| as real, x, c);
    } else {
      assert Expanded(0.0, 0.0, 0.0, c) == 0.0;
    }
  }

  /** The sum of n squares (x - c) * (x - c), from the sums of x * x and of x. */
  function Expanded(squares: real, sum: real, n: real, c: real): real {
    squares - 2.0 * c * sum + n * c * c
  }

  lemma ExpandOne(q: real, s: real, n: real, x: real, c: real)
    ensures Expanded(q, s, n, c) + (x - c) * (x - c) == Expanded(q + x * x, s + x, n + 1.0, c)
  {
    assert (x - c) * (x - c) == x * x - 2.0 * c * x + c * c;
    assert 2.0 * c * (s + x) == 2.0 * c * s + 2.0 * c * x;
    assert (n + 1.0) * c * c == n * c * c + c * c;
  }

  lemma {:induction false} DeviationsNotNegative(results: seq<Result>, f: Field, c: real)
    ensures Deviations(results, f, c) >= 0.0
  {
    if results == [] {
    } else {
      DeviationsNotNegative(results[..|results| - 1], f, c);
      SquareNotNegative(Get(results[|results| - 1], f) - c);
    }
  }

  lemma SquareNotNegative(x: real)
    ensures x * x >= 0.0
  {
  }

  /** One number of the running average and of the running second moment. */
  ghost predicate Accumulated(results: seq<Result>, f: Field, average: real, moment2: real)
    requires results != []
  {
    average == Mean(results, f) && moment2 == Deviations(results, f, average)
  }

  /** The average after one more value. */
  function NextAverage(average: real, value: real, count: real): real
    requires count != 0.0
  {
    average + (value - average) / count
  }

  /** What one more value adds to the second moment. */
  function Increment(average: real, value: real, newAverage: real): real {
    (value - average) * (value - newAverage)
  }

  /** One step of Welford's algorithm keeps the mean and the squared deviations exact. */
  lemma WelfordStep(results: seq<Result>, f: Field, x: Result, average: real, moment2: real)
    requires results != [] && Accumulated(results, f, average, moment2)
    ensures var v, k := Get(x, f), NextAverage(average, Get(x, f), |results| as real + 1.0);
      Accumulated(results + [x], f, k, moment2 + Increment(average, v, k))
  {
    hide Deviations, Sum, SumOfSquares, Get, NextAverage, Increment, Expanded;
    var all, v, n := results + [x], Get(x, f), |results| as real;
    var s, q := Sum(results, f), SumOfSquares(results, f);
    var k := NextAverage(average, v, n + 1.0);
    SumsStep(results, f, x);
    MeanTimesCount(s, n, average);
    NextMean(n, average, v, k);
    Quotient(s + v, n + 1.0, k);
    DeviationsExpand(results, f, average);
    DeviationsExpand(all, f, k);
    assert SumOfSquares(all, f) == q + v * v;
    assert Sum(all, f) == s + v;
    assert |all| as real == n + 1.0;
    assert Deviations(all, f, k) == Expanded(q + v * v, s + v, n + 1.0, k);
    WelfordAlgebra(n, average, v, k, q, s, Deviations(results, f, average), Deviations(all, f, k));
  }

  lemma SumsStep(results: seq<Result>, f: Field, x: Result)
    ensures var all := results + [x];
      && Sum(all, f) == Sum(results, f) + Get(x, f)
      && SumOfSquares(all, f) == SumOfSquares(results, f) + Get(x, f) * Get(x, f)
      && |all| as real == |results| as real + 1.0
  {
    assert (results + [x])[..|results|] == results;
  }

  lemma MeanTimesCount(s: real, n: real, m: real)
    requires n != 0.0 && m == s / n
    ensures s == n * m
  {
  }

  lemma NextMean(n: real, m: real, v: real, k: real)
    requires n > 0.0 && k == NextAverage(m, v, n + 1.0)
    ensures (n + 1.0) * k == n * m + v
  {
    MeanTimesCount(v - m, n + 1.0, (v - m) / (n + 1.0));
    assert (n + 1.0) * k == (n + 1.0) * m + (n + 1.0) * ((v - m) / (n + 1.0));
    assert (n + 1.0) * m == n * m + m;
  }

  lemma Quotient(a: real, b: real, c: real)
    requires b > 0.0 && b * c == a
    ensures c == a / b
  {
  }

  lemma WelfordAlgebra(n: real, m: real, v: real, k: real, q: real, s: real, d: real, e: real)
    requires s == n * m && (n + 1.0) * k == n * m + v
    requires d == Expanded(q, s, n, m)
    requires e == Expanded(q + v * v, s + v, n + 1.0, k)
    ensures e == d + Increment(m, v, k)
  {
    assert (n + 1.0) * k * k == (n * m + v) * k;
    assert 2.0 * k * (s + v) == 2.0 * ((n * m + v) * k);
    assert 2.0 * m * s == 2.0 * (n * m * m);
    assert n * (m - k) == k - v;
    assert m * (n * (m - k)) == m * (k - v);
    assert (n * m + v) * k == n * m * k + v * k;
    assert (v - m) * (v - k) == v * v - v * k - m * v + m * k;
    assert m * (n * (m - k)) == n * m * m - n * m * k;
    assert m * (k - v) == m * k - m * v;
  }

  /** ACCUMULATE for one field. */
  method Accumulate(average: real, moment2: real, value: real, count: nat) returns (a: real, m: real)
    requires count > 0
    ensures a == NextAverage(average, value, count as real)
    ensures m == moment2 + Increment(average, value, a)
  {
    var deltaPre := value - average;
    a := average + deltaPre / count as real;
    var deltaPost := value - a;
    m := moment2 + deltaPre * deltaPost;
  }

  /** BenchSuite::Log: with at least two runs, the average of every field is the exact mean, and
      the square of its reported standard deviation is the population variance. */
  method Log(results: seq<Result>) returns (logged: bool, average: Result, variance: Result)
    ensures logged <==> |results| >= 2
    ensures logged ==> forall f ::
      && Get(average, f) == Mean(results, f)
      && Get(variance, f) == Deviations(results, f, Mean(results, f)) / |results| as real
      && Get(variance, f) >= 0.0
  {
    var zero := PhaseResult(0.0, 0.0, 0.0);
    average, variance := Result(zero, zero), Result(zero, zero);
    if |results| < 2 {
      return false, average, variance;
    }
    hide Mean, Accumulated, Deviations, BeforeRun, NextAverage, Increment;
    logged, average := true, results[0];
    var moment2 := Result(zero, zero);
    var n := 0;
    forall f ensures BeforeRun(results, 0, f, Get(average, f), Get(moment2, f)) {
      BeforeFirst(results, f, Get(average, f), Get(moment2, f));
    }
    while n < |results|
      invariant 0 <= n <= |results|
      invariant forall f :: BeforeRun(results, n, f, Get(average, f), Get(moment2, f))
    {
      var x := results[n];
      ghost var oldAverage, oldMoment2 := average, moment2;
      var a0, m0 := Accumulate(average.init.time, moment2.init.time, x.init.time, n + 1);
      var a1, m1 := Accumulate(average.init.rate, moment2.init.rate, x.init.rate, n + 1);
      var a2, m2 := Accumulate(average.init.period, moment2.init.period, x.init.period, n + 1);
      var a3, m3 := Accumulate(average.run.time, moment2.run.time, x.run.time, n + 1);
      var a4, m4 := Accumulate(average.run.rate, moment2.run.rate, x.run.rate, n + 1);
      var a5, m5 := Accumulate(average.run.period, moment2.run.period, x.run.period, n + 1);
      average := Result(PhaseResult(a0, a1, a2), PhaseResult(a3, a4, a5));
      moment2 := Result(PhaseResult(m0, m1, m2), PhaseResult(m3, m4, m5));
      forall f ensures BeforeRun(results, n + 1, f, Get(average, f), Get(moment2, f)) {
        NextRun(results, n, f, Get(oldAverage, f), Get(oldMoment2, f));
      }
      n := n + 1;
    }
    var r := n as real;
    variance := Result(PhaseResult(moment2.init.time / r, moment2.init.rate / r, moment2.init.period / r),
                       PhaseResult(moment2.run.time / r, moment2.run.rate / r, moment2.run.period / r));
    forall f
      ensures Get(average, f) == Mean(results, f)
      ensures Get(variance, f) == Deviations(results, f, Mean(results, f)) / |results| as real
      ensures Get(variance, f) >= 0.0
    {
      AfterRuns(results, f, Get(average, f), Get(moment2, f));
      assert Get(variance, f) == Get(moment2, f) / r;
    }
  }

  lemma BeforeFirst(results: seq<Result>, f: Field, average: real, moment2: real)
    requires results != [] && average == Get(results[0], f) && moment2 == 0.0
    ensures BeforeRun(results, 0, f, average, moment2)
  {
  }

  lemma AfterRuns(results: seq<Result>, f: Field, average: real, moment2: real)
    requires results != [] && BeforeRun(results, |results|, f, average, moment2)
    ensures average == Mean(results, f) && moment2 == Deviations(results, f, average)
    ensures moment2 / |results| as real >= 0.0
  {
    assert results[..|results|] == results;
    DeviationsNotNegative(results, f, average);
  }

  /** The state of the loop before run `n`, for one field. */
  ghost predicate BeforeRun(results: seq<Result>, n: nat, f: Field, average: real, moment2: real)
    requires n <= |results| != 0
  {
    if n == 0 then average == Get(results[0], f) && moment2 == 0.0
    else Accumulated(results[..n], f, average, moment2)
  }

  /** The effect of one turn of the loop on one field. */
  lemma NextRun(results: seq<Result>, n: nat, f: Field, average: real, moment2: real)
    requires n < |results| && BeforeRun(results, n, f, average, moment2)
    ensures var v, k := Get(results[n], f), NextAverage(average, Get(results[n], f), (n + 1) as real);
      BeforeRun(results, n + 1, f, k, moment2 + Increment(average, v, k))
  {
    hide Accumulated;
    assert results[..n + 1] == results[..n] + [results[n]];
    if n == 0 {
      assert results[..1] == [results[0]];
      FirstRun(results[0], f);
    } else {
      assert (n + 1) as real == |results[..n]| as real + 1.0;
      WelfordStep(results[..n], f, results[n], average, moment2);
    }
  }

  lemma FirstRun(x: Result, f: Field)
    ensures Accumulated([x], f, Get(x, f), 0.0)
  {
    assert [x][..0] == [];
    assert Sum([x], f) == Get(x, f);
  }
}
