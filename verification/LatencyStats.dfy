/** Running latency statistics: mean and variance updated one sample at a time, over the reals. */
module LatencyStats {

  function Sum(xs: seq<nat>): real {
    if xs == [] then 0.0 else Sum(xs[..|xs| - 1]) + xs[|xs| - 1] as real
  }

  function Squares(xs: seq<nat>): real {
    if xs == [] then 0.0
    else
      var x := xs[|xs| - 1] as real;
      Squares(xs[..|xs| - 1]) + x * x
  }

  /** The sum of squared deviations from c. */
  function Deviation(xs: seq<nat>, c: real): real {
    if xs == [] then 0.0
    else
      var d := xs[|xs| - 1] as real - c;
      Deviation(xs[..|xs| - 1], c) + d * d
  }

  lemma {:induction false} DeviationExpands(xs: seq<nat>, c: real)
    ensures Deviation(xs, c) == Spread(Squares(xs), Sum(xs), |xs| as real, c)
  {
    if xs != [] {
      var rest := xs[..|xs| - 1];
      DeviationExpands(rest, c);
      SpreadGrows(Squares(rest), Sum(rest), |rest| as real, c, xs[|xs| - 1] as real,
                  Squares(xs), Sum(xs), |xs| as real, Deviation(rest, c), Deviation(xs, c));
    }
  }

  lemma SpreadGrows(squares: real, sum: real, n: real, c: real, x: real,
                    squares': real, sum': real, n': real, d: real, d': real)
    requires d == Spread(squares, sum, n, c) && d' == d + (x - c) * (x - c)
    requires squares' == squares + x * x && sum' == sum + x && n' == n + 1.0
    ensures d' == Spread(squares', sum', n', c)
  {
    assert (x - c) * (x - c) == x * x - 2.0 * c * x + c * c;
    assert 2.0 * c * (sum + x) == 2.0 * c * sum + 2.0 * c * x;
    assert (n + 1.0) * (c * c) == n * (c * c) + c * c;
  }

  lemma {:induction false} DeviationNonNegative(xs: seq<nat>, c: real)
    ensures Deviation(xs, c) >= 0.0
  {
    if xs != [] {
      DeviationNonNegative(xs[..|xs| - 1], c);
      var d := xs[|xs| - 1] as real - c;
      assert d * d >= 0.0;
    }
  }

  lemma Square(n: real, c: real, m: real)
    ensures n * (c * c) - 2.0 * c * (m * n) + n * (m * m) == n * ((c - m) * (c - m))
  {
    assert (c - m) * (c - m) == c * c - 2.0 * (c * m) + m * m;
    assert c * (m * n) == n * (c * m);
    assert n * (c * c - 2.0 * (c * m) + m * m) == n * (c * c) - 2.0 * (n * (c * m)) + n * (m * m);
  }

  lemma NonNegative(n: real, d: real)
    requires n >= 0.0
    ensures n * (d * d) >= 0.0
  {
    assert d * d >= 0.0;
  }

  /** The squared deviations from c, in terms of the sum and the squares. */
  function Spread(squares: real, sum: real, n: real, c: real): real {
    squares - 2.0 * c * sum + n * (c * c)
  }

  lemma SpreadLeastAtMean(squares: real, sum: real, n: real, mean: real, c: real)
    requires n >= 0.0 && mean * n == sum
    ensures Spread(squares, sum, n, mean) <= Spread(squares, sum, n, c)
  {
    Square(n, c, mean);
    NonNegative(n, c - mean);
    assert mean * (mean * n) == n * (mean * mean);
  }

  /** No point is closer to the samples than their mean. */
  lemma MeanMinimisesDeviation(xs: seq<nat>, mean: real, c: real)
    requires mean * |xs| as real == Sum(xs)
    ensures Deviation(xs, mean) <= Deviation(xs, c)
  {
    DeviationExpands(xs, mean);
    DeviationExpands(xs, c);
    SpreadLeastAtMean(Squares(xs), Sum(xs), |xs| as real, mean, c);
  }

  // ---- One sample more ---------------------------------------------------------------------

  lemma Binomial(a: real, b: real)
    ensures (a + b) * (a + b) == a * a + 2.0 * (a * b) + b * b
  {
  }

  /** With e the step of the mean, everything is a polynomial in m, e and k. */
  lemma UpdateIdentity(m: real, e: real, k: real)
    ensures var x := m + k * e;
            (x - m) * (x - (m + e)) == x * x - k * ((m + e) * (m + e)) + (k - 1.0) * (m * m)
  {
    var q, me, mm := k * e, m * e, m * m;
    Binomial(m, q);
    Binomial(m, e);
    assert m * q == k * me;
    assert q * e == k * (e * e);
    assert k * (mm + 2.0 * me + e * e) == k * mm + 2.0 * (k * me) + k * (e * e);
    assert (k - 1.0) * mm == k * mm - mm;
    assert q * (q - e) == q * q - q * e;
  }

  lemma NextMean(mean: real, next: real, x: real, n: real, k: real, sum: real)
    requires k == n + 1.0 && k * (next - mean) == x - mean && mean * n == sum
    ensures next * k == sum + x
  {
    assert k * (next - mean) == next * k - mean * k;
    assert mean * k == mean * n + mean;
  }

  lemma NextMoment(mean: real, next: real, x: real, n: real, k: real, sum: real, squares: real)
    requires k == n + 1.0 && k * (next - mean) == x - mean && mean * n == sum && next * k == sum + x
    ensures Spread(squares, sum, n, mean) + (x - mean) * (x - next) ==
            Spread(squares + x * x, sum + x, k, next)
  {
    UpdateIdentity(mean, next - mean, k);
    assert mean + k * (next - mean) == x && mean + (next - mean) == next;
    assert mean * sum == n * (mean * mean) by { assert mean * (mean * n) == n * (mean * mean); }
    assert next * (sum + x) == k * (next * next) by { assert next * (next * k) == k * (next * next); }
  }

  /** Welford's step on the sums: the new mean, and the new second moment. */
  lemma WelfordReal(mean: real, next: real, x: real, n: real, k: real, sum: real, squares: real, m2: real,
                    sum2: real, m2': real)
    requires k == n + 1.0 && k * (next - mean) == x - mean && mean * n == sum && sum2 == sum + x
    requires m2 == Spread(squares, sum, n, mean) && m2' == Spread(squares + x * x, sum + x, k, next)
    ensures next * k == sum2 && m2 + (x - mean) * (x - next) == m2'
  {
    NextMean(mean, next, x, n, k, sum);
    NextMoment(mean, next, x, n, k, sum, squares);
  }

  /** Welford's step keeps both equations: mean times count is the sum, and the second moment is the
      sum of squared deviations from the new mean. */
  lemma WelfordStep(xs: seq<nat>, x: nat, y: real, mean: real, m2: real, n: real, k: real, next: real, m2': real)
    requires xs != [] && n == |xs| as real && k == n + 1.0 && y == x as real
    requires mean * n == Sum(xs) && m2 == Deviation(xs, mean) && k * (next - mean) == y - mean
    requires m2' == m2 + (y - mean) * (y - next)
    ensures next * k == Sum(xs + [x]) && m2' == Deviation(xs + [x], next)
  {
    DeviationIs(xs, n, mean, m2);
    DeviationAfter(xs, x, y, k, next);
    Appended(xs, x);
    WelfordReal(mean, next, y, n, k, Sum(xs), Squares(xs), m2, Sum(xs + [x]), Deviation(xs + [x], next));
  }

  lemma DeviationIs(xs: seq<nat>, n: real, c: real, m2: real)
    requires n == |xs| as real && m2 == Deviation(xs, c)
    ensures m2 == Spread(Squares(xs), Sum(xs), n, c)
  {
    DeviationExpands(xs, c);
  }

  lemma DeviationAfter(xs: seq<nat>, x: nat, y: real, k: real, c: real)
    requires k == |xs| as real + 1.0 && y == x as real
    ensures Deviation(xs + [x], c) == Spread(Squares(xs) + y * y, Sum(xs) + y, k, c)
  {
    Appended(xs, x);
    DeviationExpands(xs + [x], c);
  }

  lemma Appended(xs: seq<nat>, x: nat)
    ensures Sum(xs + [x]) == Sum(xs) + x as real
    ensures Squares(xs + [x]) == Squares(xs) + x as real * x as real
    ensures Counted(xs + [x]) == if x == 0 then Counted(xs) else Counted(xs) + [x]
  {
    assert (xs + [x])[..|xs|] == xs;
  }

  predicate Within(xs: seq<nat>, lo: nat, hi: nat) {
    lo in xs && hi in xs && forall i :: 0 <= i < |xs| ==> lo <= xs[i] <= hi
  }

  lemma {:induction false} SumWithin(xs: seq<nat>, lo: real, hi: real, n: real)
    requires n == |xs| as real && forall i :: 0 <= i < |xs| ==> lo <= xs[i] as real <= hi
    ensures lo * n <= Sum(xs) <= hi * n
  {
    if xs != [] {
      SumWithin(xs[..|xs| - 1], lo, hi, n - 1.0);
      AddBounds(Sum(xs[..|xs| - 1]), n - 1.0, xs[|xs| - 1] as real, lo, hi);
    }
  }

  lemma AddBounds(sum: real, n: real, x: real, lo: real, hi: real)
    requires lo * n <= sum <= hi * n && lo <= x <= hi
    ensures lo * (n + 1.0) <= sum + x <= hi * (n + 1.0)
  {
    assert lo * (n + 1.0) == lo * n + lo;
    assert hi * (n + 1.0) == hi * n + hi;
  }

  lemma Scaled(a: real, b: real, n: real)
    requires n > 0.0 && a > b
    ensures a * n > b * n
  {
    assert (a - b) * n > 0.0;
  }

  lemma Between(lo: real, mean: real, hi: real, n: real, sum: real)
    requires n > 0.0 && lo * n <= sum <= hi * n && mean * n == sum
    ensures lo <= mean <= hi
  {
    if lo > mean { Scaled(lo, mean, n); }
    if mean > hi { Scaled(mean, hi, n); }
  }

  lemma MeanWithin(xs: seq<nat>, mean: real, lo: real, hi: real, n: real)
    requires xs != [] && n == |xs| as real && forall i :: 0 <= i < |xs| ==> lo <= xs[i] as real <= hi
    requires mean * n == Sum(xs)
    ensures lo <= mean <= hi
  {
    SumWithin(xs, lo, hi, n);
    Between(lo, mean, hi, n, Sum(xs));
  }

  // ---- The statistics ----------------------------------------------------------------------

  /** The standard deviation is published as the square root of the variance, which is kept here. */
  datatype Snapshot = Snapshot(last: nat, min: nat, max: nat, mean: real, variance: real, count: nat)

  function Counted(latencies: seq<nat>): seq<nat> {
    if latencies == [] then []
    else
      var x := latencies[|latencies| - 1];
      Counted(latencies[..|latencies| - 1]) + if x == 0 then [] else [x]
  }

  ghost predicate Moments(xs: seq<nat>, n: real, mean: real, m2: real) {
    xs != [] ==> mean * n == Sum(xs) && m2 == Deviation(xs, mean)
  }

  ghost predicate Describes(xs: seq<nat>, s: Snapshot) {
    s.count == |xs| &&
    if xs == [] then s == Snapshot(0, 0, 0, 0.0, 0.0, 0)
    else
      s.last == xs[|xs| - 1] && Within(xs, s.min, s.max) && s.min as real <= s.mean <= s.max as real &&
      Moments(xs, s.count as real, s.mean, s.variance * s.count as real) && s.variance >= 0.0
  }

  method StepMean(mean: real, delta: real, k: real) returns (next: real)
    requires k > 0.0
    ensures k * (next - mean) == delta
  {
    next := mean + delta / k;
  }

  /** Mean and second moment moved by one sample. */
  method Moved(ghost xs: seq<nat>, x: nat, ghost n: real, mean: real, m2: real, k: real)
    returns (next: real, moment: real)
    requires xs != [] && n == |xs| as real && k == n + 1.0 && Moments(xs, n, mean, m2)
    ensures Moments(xs + [x], k, next, moment)
  {
    var y := x as real;
    var delta := y - mean;
    next := StepMean(mean, delta, k);
    var delta2 := y - next;
    moment := m2 + delta * delta2;
    WelfordStep(xs, x, y, mean, m2, n, k, next, moment);
  }

  class Stats {
    var last: nat
    var min: nat
    var max: nat
    var count: nat
    var mean: real
    var m2: real
    var snapshot: Snapshot
    ghost var latencies: seq<nat>

    /** Accumulators and snapshot describe the samples xs. */
    ghost predicate Hold(xs: seq<nat>)
      reads this
    {
      count == |xs| && Describes(xs, snapshot) && Moments(xs, count as real, mean, m2) &&
      (xs != [] ==>
        last == snapshot.last && min == snapshot.min && max == snapshot.max && mean == snapshot.mean)
    }

    /** They describe the latencies so far, a zero being no latency at all. */
    ghost predicate Valid()
      reads this
    {
      Hold(Counted(latencies))
    }

    constructor ()
      ensures Valid() && latencies == []
    {
      last, min, max, count, mean, m2 := 0, 0, 0, 0, 0.0, 0.0;
      snapshot := Snapshot(0, 0, 0, 0.0, 0.0, 0);
      latencies := [];
    }

    method Update(latency: nat)
      requires Valid()
      modifies this
      ensures Valid() && latencies == old(latencies) + [latency]
      ensures latency == 0 ==> snapshot == old(snapshot)
      ensures latency != 0 ==> snapshot.last == latency && snapshot.count == old(snapshot.count) + 1
    {
      ghost var xs := Counted(latencies);
      Appended(latencies, latency);
      latencies := latencies + [latency];
      if latency != 0 { Record(latency, xs); }
    }

    method Record(latency: nat, ghost xs: seq<nat>)
      requires Hold(xs)
      modifies this`last, this`min, this`max, this`count, this`mean, this`m2, this`snapshot
      ensures Hold(xs + [latency])
    {
      Accumulate(latency, xs);
      Publish(xs + [latency]);
    }

    /** The accumulators after one more sample. */
    method Accumulate(latency: nat, ghost xs: seq<nat>)
      requires count == |xs| && Moments(xs, count as real, mean, m2) && (xs != [] ==> Within(xs, min, max))
      modifies this`last, this`min, this`max, this`count, this`mean, this`m2
      ensures count == |xs| + 1 && last == latency && Within(xs + [latency], min, max)
      ensures Moments(xs + [latency], count as real, mean, m2)
    {
      assert (xs + [latency])[..|xs|] == xs;
      ghost var n := count as real;
      count := count + 1;
      last := latency;
      if count == 1 {
        min, max, mean, m2 := latency, latency, latency as real, 0.0;
      } else {
        if latency < min { min := latency; }
        if latency > max { max := latency; }
        mean, m2 := Moved(xs, latency, n, mean, m2, count as real);
      }
    }

    method Publish(ghost ys: seq<nat>)
      requires ys != [] && count == |ys| && last == ys[|ys| - 1] && Within(ys, min, max)
      requires Moments(ys, count as real, mean, m2)
      modifies this`snapshot
      ensures snapshot.last == last && snapshot.min == min && snapshot.max == max && snapshot.mean == mean
      ensures Describes(ys, snapshot)
    {
      MeanWithin(ys, mean, min as real, max as real, count as real);
      DeviationNonNegative(ys, mean);
      var variance := 0.0;
      if count > 1 {
        variance := m2 / count as real;
      } else {
        assert ys == [last] && ys[..0] == [];
      }
      snapshot := Snapshot(last, min, max, mean, variance, count);
    }
  }
}
