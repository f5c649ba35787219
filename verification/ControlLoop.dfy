/** The flight control loop's own state: arming, and the two-rate attitude scheduler with its
    sample windows. */
module ControlLoop {
  import opened Wrappers
  import opened Clock

  const AUTOLEVEL_DIV := 8
  const BACKGROUND_DIV := 16
  const THROTTLE_ARM_MAX := 1050
  const RC_STALE_TIMEOUT_MS := 100
  const CONTROL_DT := 1.0 / 1600.0

  datatype Mode = Acro | AutoLevel

  datatype Vec = Vec(x: real, y: real, z: real)

  datatype Sample = Sample(gyro: Vec, accel: Vec, dt: real)

  /** What one pass of the loop reads. */
  datatype Reading = Reading(
    imuOk: bool, rcValid: bool, rcStamp: int, now: int, armSwitch: bool, throttle: int, mode: Mode,
    gyro: Vec, accel: Vec, dt: real)

  // ---- One pass, as a function -------------------------------------------------------------

  function RcStale(lockstep: bool, t: Reading): bool {
    if lockstep then !t.rcValid else !t.rcValid || t.now - t.rcStamp > RC_STALE_TIMEOUT_MS
  }

  /** IMU, RC freshness and arm switch all hold. */
  predicate Ready(lockstep: bool, t: Reading) {
    t.imuOk && !RcStale(lockstep, t) && t.armSwitch
  }

  function TickDt(t: Reading): real {
    if t.dt <= 0.0 then CONTROL_DT else t.dt
  }

  function SampleOf(t: Reading): Sample {
    Sample(t.gyro, t.accel, TickDt(t))
  }

  datatype Loop = Loop(armed: bool, mode: Mode, autolevel: nat, background: nat, held: seq<Sample>)

  const START := Loop(false, Acro, 0, 0, [])

  /** What a pass does besides: the samples whose average goes to the predictor, and whether the
      controllers start afresh. */
  datatype Effect = Effect(window: Option<seq<Sample>>, reset: bool)

  function Armed(lockstep: bool, l: Loop, t: Reading): bool {
    Ready(lockstep, t) && (l.armed || t.throttle <= THROTTLE_ARM_MAX)
  }

  function Scheduled(l: Loop, armed: bool, mode: Mode): (Loop, bool) {
    if armed && mode == AutoLevel
    then (l.(autolevel := Divided(l.autolevel, AUTOLEVEL_DIV)), l.autolevel == 0)
    else (l.(background := Divided(l.background, BACKGROUND_DIV)), l.background == 0)
  }

  function Next(lockstep: bool, l: Loop, t: Reading): (Loop, Effect) {
    var armed := Armed(lockstep, l, t);
    var (s, due) := Scheduled(l, armed, t.mode);
    var reset := !armed || !l.armed || t.mode != l.mode;
    var held := if t.imuOk then l.held + [SampleOf(t)] else [];
    var taken := t.imuOk && due;
    (Loop(armed, t.mode, s.autolevel, s.background, if taken then [] else held),
     Effect(if armed && taken then Some(held) else None, reset))
  }

  function Run(lockstep: bool, ticks: seq<Reading>): Loop {
    if ticks == [] then START else Next(lockstep, Run(lockstep, ticks[..|ticks| - 1]), ticks[|ticks| - 1]).0
  }

  /** The loop after the first n ticks. */
  function At(lockstep: bool, ticks: seq<Reading>, n: nat): Loop
    requires n <= |ticks|
  {
    Run(lockstep, ticks[..n])
  }

  function EffectOf(lockstep: bool, ticks: seq<Reading>, n: nat): Effect
    requires n < |ticks|
  {
    Next(lockstep, At(lockstep, ticks, n), ticks[n]).1
  }

  lemma AtNext(lockstep: bool, ticks: seq<Reading>, n: nat)
    requires n < |ticks|
    ensures At(lockstep, ticks, n + 1) == Next(lockstep, At(lockstep, ticks, n), ticks[n]).0
  {
    assert ticks[..n + 1][..n] == ticks[..n];
  }

  // ---- Arming ------------------------------------------------------------------------------

  /** The throttle was low at tick j, and from then to tick i nothing was amiss. */
  predicate ArmedSince(lockstep: bool, ticks: seq<Reading>, j: nat, i: nat)
    requires j <= i < |ticks|
  {
    ticks[j].throttle <= 1050 &&
    forall k :: j <= k <= i ==>
      ticks[k].imuOk && ticks[k].rcValid && ticks[k].armSwitch &&
      (lockstep || ticks[k].now - ticks[k].rcStamp <= 100)
  }

  /** Tick i leaves the vehicle armed exactly when at that tick or an earlier one the throttle was
      low, and IMU, RC freshness and arm switch have all held since. */
  lemma {:induction false} ArmedExactly(lockstep: bool, ticks: seq<Reading>, i: nat)
    requires i < |ticks|
    ensures At(lockstep, ticks, i + 1).armed <==>
            exists j: nat :: j <= i && ArmedSince(lockstep, ticks, j, i)
  {
    AtNext(lockstep, ticks, i);
    if i > 0 {
      var h := i - 1;
      ArmedExactly(lockstep, ticks, h);
      if j: nat :| j <= h && ArmedSince(lockstep, ticks, j, h) {
        assert Ready(lockstep, ticks[i]) ==> ArmedSince(lockstep, ticks, j, i);
      }
      if j: nat :| j <= i && ArmedSince(lockstep, ticks, j, i) {
        assert j < i ==> ArmedSince(lockstep, ticks, j, h);
      }
    }
    if ticks[i].throttle <= THROTTLE_ARM_MAX && Ready(lockstep, ticks[i]) {
      assert ArmedSince(lockstep, ticks, i, i);
    }
  }

  /** The controllers start afresh on every tick that leaves the vehicle disarmed, on the first one
      armed, and on a change of mode; on no other. */
  lemma ResetExactly(lockstep: bool, ticks: seq<Reading>, i: nat)
    requires i < |ticks|
    ensures EffectOf(lockstep, ticks, i).reset <==>
            !At(lockstep, ticks, i + 1).armed || !At(lockstep, ticks, i).armed ||
            ticks[i].mode != ticks[i - 1].mode
    ensures !At(lockstep, ticks, 0).armed
  {
    AtNext(lockstep, ticks, i);
    if i > 0 { AtNext(lockstep, ticks, i - 1); }
  }

  // ---- The two rates -----------------------------------------------------------------------

  /** How many of the first n ticks were armed in auto-level mode. */
  function Levelled(lockstep: bool, ticks: seq<Reading>, n: nat): (c: nat)
    requires n <= |ticks|
    ensures c <= n
  {
    if n == 0 then 0
    else
      Levelled(lockstep, ticks, n - 1) +
      if At(lockstep, ticks, n).armed && ticks[n - 1].mode == AutoLevel then 1 else 0
  }

  lemma OneCounts(lockstep: bool, l: Loop, t: Reading)
    ensures var r := Next(lockstep, l, t).0;
            if r.armed && t.mode == AutoLevel
            then r.autolevel == Divided(l.autolevel, AUTOLEVEL_DIV) && r.background == l.background
            else r.autolevel == l.autolevel && r.background == Divided(l.background, BACKGROUND_DIV)
  {
  }

  lemma CountOn(n: nat, divisor: nat)
    requires divisor > 0
    ensures Countdown(n + 1, divisor) == Divided(Countdown(n, divisor), divisor)
  {
  }

  lemma {:induction false} CountdownsExactly(lockstep: bool, ticks: seq<Reading>, n: nat)
    requires n <= |ticks|
    ensures At(lockstep, ticks, n).autolevel == Countdown(Levelled(lockstep, ticks, n), AUTOLEVEL_DIV)
    ensures At(lockstep, ticks, n).background == Countdown(n - Levelled(lockstep, ticks, n), BACKGROUND_DIV)
  {
    if n > 0 {
      var h := n - 1;
      CountdownsExactly(lockstep, ticks, h);
      AtNext(lockstep, ticks, h);
      OneCounts(lockstep, At(lockstep, ticks, h), ticks[h]);
      CountOn(Levelled(lockstep, ticks, h), AUTOLEVEL_DIV);
      CountOn(h - Levelled(lockstep, ticks, h), BACKGROUND_DIV);
    }
  }

  /** Every eighth of the ticks armed in auto-level mode and every sixteenth of the others is due,
      whatever lies between them. */
  predicate DueAt(lockstep: bool, ticks: seq<Reading>, n: nat)
    requires n < |ticks|
  {
    if At(lockstep, ticks, n + 1).armed && ticks[n].mode == AutoLevel
    then Levelled(lockstep, ticks, n) % 8 == 0
    else (n - Levelled(lockstep, ticks, n)) % 16 == 0
  }

  lemma DueExactly(lockstep: bool, ticks: seq<Reading>, n: nat)
    requires n < |ticks|
    ensures Scheduled(At(lockstep, ticks, n), At(lockstep, ticks, n + 1).armed, ticks[n].mode).1 <==>
            DueAt(lockstep, ticks, n)
  {
    var c := Levelled(lockstep, ticks, n);
    CountdownsExactly(lockstep, ticks, n);
    ExpiresEveryDivisor(c, AUTOLEVEL_DIV);
    ExpiresEveryDivisor(n - c, BACKGROUND_DIV);
  }

  /** A window goes to the predictor on the due ticks that are armed with a good sample, and on no
      other. A due tick leaves no sample held, and neither does one without a good sample; any other
      leaves one more. */
  lemma WindowsExactly(lockstep: bool, ticks: seq<Reading>, n: nat)
    requires n < |ticks|
    ensures EffectOf(lockstep, ticks, n).window.Some? <==>
            ticks[n].imuOk && At(lockstep, ticks, n + 1).armed && DueAt(lockstep, ticks, n)
    ensures !ticks[n].imuOk || DueAt(lockstep, ticks, n) ==> At(lockstep, ticks, n + 1).held == []
    ensures ticks[n].imuOk ==>
              var x := Sample(ticks[n].gyro, ticks[n].accel, if ticks[n].dt > 0.0 then ticks[n].dt else 1.0 / 1600.0);
              var held := At(lockstep, ticks, n).held + [x];
              (!DueAt(lockstep, ticks, n) ==> At(lockstep, ticks, n + 1).held == held) &&
              (EffectOf(lockstep, ticks, n).window.Some? ==> EffectOf(lockstep, ticks, n).window.value == held)
  {
    AtNext(lockstep, ticks, n);
    DueExactly(lockstep, ticks, n);
  }

  // ---- Windows -----------------------------------------------------------------------------

  /** Samples held and both countdowns together stay below what the two rates allow. */
  predicate Bounded(l: Loop) {
    l.autolevel < AUTOLEVEL_DIV && l.background < BACKGROUND_DIV &&
    |l.held| + l.autolevel + l.background <= AUTOLEVEL_DIV + BACKGROUND_DIV - 2
  }

  const MAX_WINDOW := AUTOLEVEL_DIV + BACKGROUND_DIV - 1

  lemma NextBounded(lockstep: bool, l: Loop, t: Reading)
    requires Bounded(l)
    ensures Bounded(Next(lockstep, l, t).0)
    ensures var w := Next(lockstep, l, t).1.window;
            w.Some? ==> 0 < |w.value| <= MAX_WINDOW
  {
  }

  lemma {:induction false} AlwaysBounded(lockstep: bool, ticks: seq<Reading>, n: nat)
    requires n <= |ticks|
    ensures Bounded(At(lockstep, ticks, n))
  {
    if n > 0 {
      AlwaysBounded(lockstep, ticks, n - 1);
      AtNext(lockstep, ticks, n - 1);
      NextBounded(lockstep, At(lockstep, ticks, n - 1), ticks[n - 1]);
    }
  }

  /** However modes and arming flip: at most 22 after a tick, and no window has more than 23
      samples. */
  lemma WindowsAreBounded(lockstep: bool, ticks: seq<Reading>, n: nat)
    requires n < |ticks|
    ensures var l := At(lockstep, ticks, n + 1);
            |l.held| + l.autolevel + l.background <= 22
    ensures var w := EffectOf(lockstep, ticks, n).window;
            w.Some? ==> 0 < |w.value| <= 23
  {
    AlwaysBounded(lockstep, ticks, n);
    AlwaysBounded(lockstep, ticks, n + 1);
    NextBounded(lockstep, At(lockstep, ticks, n), ticks[n]);
  }

  // ---- No sample counted twice, none lost --------------------------------------------------

  function Samples(ticks: seq<Reading>, a: nat, b: nat): seq<Sample>
    requires a <= b <= |ticks|
  {
    if a == b then [] else Samples(ticks, a, b - 1) + [SampleOf(ticks[b - 1])]
  }

  /** Everything averaged in ticks a to b, window after window. */
  function Averaged(lockstep: bool, ticks: seq<Reading>, a: nat, b: nat): seq<Sample>
    requires a <= b <= |ticks|
  {
    if a == b then []
    else Averaged(lockstep, ticks, a, b - 1) + Taken(EffectOf(lockstep, ticks, b - 1).window)
  }

  predicate ArmedThroughout(lockstep: bool, ticks: seq<Reading>, a: nat, b: nat)
    requires a <= b <= |ticks|
  {
    forall k :: a < k <= b ==> At(lockstep, ticks, k).armed
  }

  function Taken(w: Option<seq<Sample>>): seq<Sample> {
    if w.Some? then w.value else []
  }

  lemma StepConserved(lockstep: bool, l: Loop, t: Reading)
    requires Next(lockstep, l, t).0.armed
    ensures Taken(Next(lockstep, l, t).1.window) + Next(lockstep, l, t).0.held == l.held + [SampleOf(t)]
  {
    var x := l.held + [SampleOf(t)];
    assert [] + x == x && x + [] == x;
  }

  /** While armed, the windows one after another and then the samples held are the samples held at
      first and every sample since, in order. */
  lemma {:induction false} SamplesConserved(lockstep: bool, ticks: seq<Reading>, a: nat, b: nat)
    requires a <= b <= |ticks| && ArmedThroughout(lockstep, ticks, a, b)
    ensures Averaged(lockstep, ticks, a, b) + At(lockstep, ticks, b).held ==
            At(lockstep, ticks, a).held + Samples(ticks, a, b)
    decreases b
  {
    if a < b {
      ArmedBefore(lockstep, ticks, a, b);
      SamplesConserved(lockstep, ticks, a, b - 1);
      SamplesStep(lockstep, ticks, a, b);
    } else {
      NothingYet(At(lockstep, ticks, a).held);
    }
  }

  lemma ArmedBefore(lockstep: bool, ticks: seq<Reading>, a: nat, b: nat)
    requires a < b <= |ticks| && ArmedThroughout(lockstep, ticks, a, b)
    ensures ArmedThroughout(lockstep, ticks, a, b - 1) && At(lockstep, ticks, b).armed
  {
  }

  lemma NothingYet<T>(h: seq<T>)
    ensures [] + h == h + []
  {
  }

  lemma SamplesStep(lockstep: bool, ticks: seq<Reading>, a: nat, b: nat)
    requires a < b <= |ticks| && At(lockstep, ticks, b).armed
    requires Averaged(lockstep, ticks, a, b - 1) + At(lockstep, ticks, b - 1).held ==
             At(lockstep, ticks, a).held + Samples(ticks, a, b - 1)
    ensures Averaged(lockstep, ticks, a, b) + At(lockstep, ticks, b).held ==
            At(lockstep, ticks, a).held + Samples(ticks, a, b)
  {
    AtNext(lockstep, ticks, b - 1);
    var before, after := At(lockstep, ticks, b - 1), At(lockstep, ticks, b);
    StepConserved(lockstep, before, ticks[b - 1]);
    Associate(Averaged(lockstep, ticks, a, b - 1), before.held, [SampleOf(ticks[b - 1])],
              At(lockstep, ticks, a).held, Samples(ticks, a, b - 1),
              Taken(EffectOf(lockstep, ticks, b - 1).window), after.held);
  }

  lemma Associate<T>(p: seq<T>, q: seq<T>, x: seq<T>, r: seq<T>, s: seq<T>, w: seq<T>, h: seq<T>)
    requires p + q == r + s && w + h == q + x
    ensures (p + w) + h == r + (s + x)
  {
    assert (p + w) + h == p + (w + h);
    assert p + (q + x) == p + q + x;
    assert r + s + x == r + (s + x);
  }

  function TotalDt(xs: seq<Sample>): real {
    if xs == [] then 0.0 else TotalDt(xs[..|xs| - 1]) + xs[|xs| - 1].dt
  }

  lemma {:induction false} TotalDtConcat(xs: seq<Sample>, ys: seq<Sample>)
    ensures TotalDt(xs + ys) == TotalDt(xs) + TotalDt(ys)
    decreases |ys|
  {
    if ys == [] {
      assert xs + ys == xs;
    } else {
      assert (xs + ys)[..|xs + ys| - 1] == xs + ys[..|ys| - 1];
      TotalDtConcat(xs, ys[..|ys| - 1]);
    }
  }

  function PredictedDt(lockstep: bool, ticks: seq<Reading>, a: nat, b: nat): real
    requires a <= b <= |ticks|
  {
    if a == b then 0.0
    else
      var w := EffectOf(lockstep, ticks, b - 1).window;
      PredictedDt(lockstep, ticks, a, b - 1) + TotalDt(Taken(w))
  }

  function ElapsedDt(ticks: seq<Reading>, a: nat, b: nat): real
    requires a <= b <= |ticks|
  {
    if a == b then 0.0
    else ElapsedDt(ticks, a, b - 1) + if ticks[b - 1].dt > 0.0 then ticks[b - 1].dt else 1.0 / 1600.0
  }

  /** While armed, the time handed to the predictor and the time held make up the time held at first
      and every tick's since. */
  lemma {:induction false} TimeConserved(lockstep: bool, ticks: seq<Reading>, a: nat, b: nat)
    requires a <= b <= |ticks| && ArmedThroughout(lockstep, ticks, a, b)
    ensures PredictedDt(lockstep, ticks, a, b) + TotalDt(At(lockstep, ticks, b).held) ==
            TotalDt(At(lockstep, ticks, a).held) + ElapsedDt(ticks, a, b)
    decreases b
  {
    if a < b {
      TimeConserved(lockstep, ticks, a, b - 1);
      AtNext(lockstep, ticks, b - 1);
      var held := At(lockstep, ticks, b - 1).held;
      assert (held + [SampleOf(ticks[b - 1])])[..|held|] == held;
    }
  }

  /** What is held after n ticks are the latest samples, unbroken. */
  lemma {:induction false} HeldIsRecent(lockstep: bool, ticks: seq<Reading>, n: nat)
    requires n <= |ticks|
    ensures |At(lockstep, ticks, n).held| <= n
    ensures At(lockstep, ticks, n).held == Samples(ticks, n - |At(lockstep, ticks, n).held|, n)
  {
    if n > 0 {
      HeldIsRecent(lockstep, ticks, n - 1);
      AtNext(lockstep, ticks, n - 1);
    }
  }

  lemma {:induction false} HeldGrowsSlowly(lockstep: bool, ticks: seq<Reading>, n: nat, m: nat)
    requires n <= m <= |ticks| && At(lockstep, ticks, n).held == []
    ensures |At(lockstep, ticks, m).held| <= m - n
    decreases m
  {
    if n < m {
      HeldGrowsSlowly(lockstep, ticks, n, m - 1);
      AtNext(lockstep, ticks, m - 1);
    }
  }

  /** Over any run, armed or not: each window is the latest ticks' samples, and a later window begins
      after an earlier one ends. No sample is averaged twice. */
  lemma WindowsAreDisjoint(lockstep: bool, ticks: seq<Reading>, n: nat, m: nat)
    requires n < m < |ticks|
    requires EffectOf(lockstep, ticks, n).window.Some? && EffectOf(lockstep, ticks, m).window.Some?
    ensures var v := EffectOf(lockstep, ticks, n).window.value;
            |v| <= n + 1 && v == Samples(ticks, n + 1 - |v|, n + 1)
    ensures var w := EffectOf(lockstep, ticks, m).window.value;
            m + 1 - |w| > n && w == Samples(ticks, m + 1 - |w|, m + 1)
  {
    HeldIsRecent(lockstep, ticks, n);
    HeldIsRecent(lockstep, ticks, m);
    AtNext(lockstep, ticks, n);
    HeldGrowsSlowly(lockstep, ticks, n + 1, m);
  }

  // ---- The bound is reached ----------------------------------------------------------------

  function GoodTick(mode: Mode): Reading {
    Reading(true, true, 0, 0, true, 1000, mode, Vec(0.0, 0.0, 0.0), Vec(0.0, 0.0, 0.0), CONTROL_DT)
  }

  function ModeAt(i: nat): Mode {
    if i == 0 || 2 <= i < 9 then AutoLevel else Acro
  }

  function Flips(): (ticks: seq<Reading>)
    ensures |ticks| == 25 && forall i :: 0 <= i < 25 ==> ticks[i] == GoodTick(ModeAt(i))
  {
    seq(25, i requires 0 <= i < 25 => GoodTick(ModeAt(i)))
  }

  lemma {:induction false} FlipsRun(lockstep: bool, n: nat)
    requires 2 <= n <= 24
    ensures var l := At(lockstep, Flips(), n);
            l.armed && |l.held| == n - 2 &&
            l.autolevel == (if n <= 9 then 9 - n else 0) && l.background == (if n <= 9 then 15 else 24 - n)
  {
    AtNext(lockstep, Flips(), n - 1);
    if n > 2 {
      FlipsRun(lockstep, n - 1);
    } else {
      AtNext(lockstep, Flips(), 0);
    }
  }

  /** A window of 23 samples does occur, when the mode flips as the countdowns run out. */
  lemma LongestWindow(lockstep: bool)
    ensures var w := EffectOf(lockstep, Flips(), 24).window;
            w.Some? && |w.value| == MAX_WINDOW
  {
    FlipsRun(lockstep, 24);
  }
}
