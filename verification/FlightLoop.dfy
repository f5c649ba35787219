/** The control loop as it runs: running sums instead of samples, and one write to the motors each
    pass. */
module FlightLoop {
  import opened Wrappers
  import opened Clock
  import opened ControlLoop
  import opened MotorOutput

  function Plus(u: Vec, v: Vec): Vec {
    Vec(u.x + v.x, u.y + v.y, u.z + v.z)
  }

  function Scale(u: Vec, k: real): Vec {
    Vec(u.x * k, u.y * k, u.z * k)
  }

  const ZERO := Vec(0.0, 0.0, 0.0)

  /** Gyro, accelerometer and time added up. */
  function Total(xs: seq<Sample>): Sample {
    if xs == [] then Sample(ZERO, ZERO, 0.0)
    else
      var t := Total(xs[..|xs| - 1]);
      var x := xs[|xs| - 1];
      Sample(Plus(t.gyro, x.gyro), Plus(t.accel, x.accel), t.dt + x.dt)
  }

  lemma {:induction false} TotalTime(xs: seq<Sample>)
    ensures Total(xs).dt == TotalDt(xs)
  {
    if xs != [] { TotalTime(xs[..|xs| - 1]); }
  }

  /** What the predictor gets for a window: averages, and the whole of its time. */
  function Mean(xs: seq<Sample>): Sample
    requires xs != []
  {
    var k := 1.0 / |xs| as real;
    Sample(Scale(Total(xs).gyro, k), Scale(Total(xs).accel, k), Total(xs).dt)
  }

  function SumOf(xs: seq<Sample>, f: Sample -> real): real {
    if xs == [] then 0.0 else SumOf(xs[..|xs| - 1], f) + f(xs[|xs| - 1])
  }

  function GyroX(s: Sample): real { s.gyro.x }
  function GyroY(s: Sample): real { s.gyro.y }
  function GyroZ(s: Sample): real { s.gyro.z }
  function AccelX(s: Sample): real { s.accel.x }
  function AccelY(s: Sample): real { s.accel.y }
  function AccelZ(s: Sample): real { s.accel.z }

  /** Axis by axis the average over the window, gyro and accelerometer each on its own, and the
      whole of the window's time. */
  ghost predicate IsAverage(fed: Sample, xs: seq<Sample>) {
    xs != [] && fed.dt == TotalDt(xs) &&
    fed.gyro.x * |xs| as real == SumOf(xs, GyroX) && fed.accel.x * |xs| as real == SumOf(xs, AccelX) &&
    fed.gyro.y * |xs| as real == SumOf(xs, GyroY) && fed.accel.y * |xs| as real == SumOf(xs, AccelY) &&
    fed.gyro.z * |xs| as real == SumOf(xs, GyroZ) && fed.accel.z * |xs| as real == SumOf(xs, AccelZ)
  }

  lemma {:induction false} TotalIsSum(xs: seq<Sample>)
    ensures var t := Total(xs);
            t.gyro == Vec(SumOf(xs, GyroX), SumOf(xs, GyroY), SumOf(xs, GyroZ)) &&
            t.accel == Vec(SumOf(xs, AccelX), SumOf(xs, AccelY), SumOf(xs, AccelZ))
  {
    if xs != [] { TotalIsSum(xs[..|xs| - 1]); }
  }

  lemma Parts(u: Vec, n: real)
    requires n != 0.0
    ensures var v := Scale(u, 1.0 / n);
            v.x * n == u.x && v.y * n == u.y && v.z * n == u.z
  {
    var k := 1.0 / n;
    assert k * n == 1.0;
    assert u.x * k * n == u.x * (k * n) && u.y * k * n == u.y * (k * n) && u.z * k * n == u.z * (k * n);
  }

  /** What the loop feeds is the window's average. */
  lemma MeanIsAverage(xs: seq<Sample>)
    requires xs != []
    ensures IsAverage(Mean(xs), xs)
  {
    TotalTime(xs);
    TotalIsSum(xs);
    Parts(Total(xs).gyro, |xs| as real);
    Parts(Total(xs).accel, |xs| as real);
  }

  /** An average lies between the bounds of what it averages. */
  lemma AverageWithin(average: real, xs: seq<Sample>, f: Sample -> real, lo: real, hi: real)
    requires xs != [] && average * |xs| as real == SumOf(xs, f)
    requires forall x :: x in xs ==> lo <= f(x) <= hi
    ensures lo <= average <= hi
  {
    SumWithin(xs, f, lo, hi, |xs| as real);
    Between(lo, average, hi, |xs| as real, SumOf(xs, f));
  }

  lemma Between(lo: real, average: real, hi: real, n: real, sum: real)
    requires n > 0.0 && lo * n <= sum <= hi * n && average * n == sum
    ensures lo <= average <= hi
  {
    if lo > average { Scaled(lo, average, n); }
    if average > hi { Scaled(average, hi, n); }
  }

  lemma Scaled(a: real, b: real, n: real)
    requires n > 0.0 && a > b
    ensures a * n > b * n
  {
    assert (a - b) * n > 0.0;
  }

  lemma AddBounds(sum: real, n: real, x: real, lo: real, hi: real)
    requires lo * n <= sum <= hi * n && lo <= x <= hi
    ensures lo * (n + 1.0) <= sum + x <= hi * (n + 1.0)
  {
    assert lo * (n + 1.0) == lo * n + lo;
    assert hi * (n + 1.0) == hi * n + hi;
  }

  lemma {:induction false} SumWithin(xs: seq<Sample>, f: Sample -> real, lo: real, hi: real, n: real)
    requires n == |xs| as real && forall x :: x in xs ==> lo <= f(x) <= hi
    ensures lo * n <= SumOf(xs, f) <= hi * n
  {
    if xs != [] {
      var rest, x := xs[..|xs| - 1], xs[|xs| - 1];
      SumWithin(rest, f, lo, hi, n - 1.0);
      AddBounds(SumOf(rest, f), n - 1.0, f(x), lo, hi);
    }
  }

  /** What the motors are told in a pass, in the order the loop asks: motor test, raw test, then the
      controller's mix unless there is nothing to go by. */
  ghost predicate Told(o: Output, lockstep: bool, t: Reading, armed: bool, mix: seq<real>, bank: MotorBank)
    requires bank.Valid() && |mix| == MOTORS
    reads bank, bank.testValues, bank.rawValues
  {
    if bank.testActive then IsWriteOf(o, bank.testValues[..], true, true)
    else if bank.rawActive then IsRawWriteOf(o, bank.rawValues[..], true)
    else if !t.imuOk || RcStale(lockstep, t) then IsWriteOf(o, bank.testValues[..], false, false)
    else IsWriteOf(o, mix, armed, false)
  }

  /** A motor test writes the test's values; with none active and IMU and RC good, the mix is written
      while armed, motor by motor; and whatever else happens, the motors are stopped. */
  lemma ToldExactly(o: Output, lockstep: bool, t: Reading, armed: bool, mix: seq<real>, bank: MotorBank)
    requires bank.Valid() && |mix| == MOTORS && Told(o, lockstep, t, armed, mix, bank)
    ensures o.test == (bank.testActive || bank.rawActive)
    ensures bank.testActive ==> IsDriven(o, bank.testValues[..])
    ensures !bank.testActive && bank.rawActive ==> IsDrivenRaw(o, bank.rawValues[..])
    ensures !bank.testActive && !bank.rawActive && armed && t.imuOk && t.rcValid &&
            (lockstep || t.now - t.rcStamp <= 100) ==>
              IsDriven(o, mix)
    ensures !bank.testActive && !bank.rawActive &&
            (!armed || !t.imuOk || !t.rcValid || (!lockstep && t.now - t.rcStamp > 100)) ==>
              IsStopped(o)
  {
    if bank.testActive {
      WriteIsGated(o, bank.testValues[..], true, true);
    } else if bank.rawActive {
      RawWriteIsCut(o, bank.rawValues[..], true);
    } else if !t.imuOk || RcStale(lockstep, t) {
      WriteIsGated(o, bank.testValues[..], false, false);
    } else {
      WriteIsGated(o, mix, armed, false);
    }
  }

  /** With no motor test active the motors turn only while armed; and every value ever written is
      zero or a throttle value. */
  lemma DisarmedMeansStopped(o: Output, lockstep: bool, t: Reading, armed: bool, mix: seq<real>, bank: MotorBank)
    requires bank.Valid() && |mix| == MOTORS && Told(o, lockstep, t, armed, mix, bank)
    ensures |o.raw| == MOTORS && forall i :: 0 <= i < MOTORS ==> IsCommand(o.raw[i])
    ensures !o.test && o.raw != [0, 0, 0, 0] ==>
              armed && t.imuOk && t.rcValid && (lockstep || t.now - t.rcStamp <= 100)
  {
    if bank.testActive {
      WriteIsGated(o, bank.testValues[..], true, true);
    } else if bank.rawActive {
      forall i | 0 <= i < MOTORS ensures IsCommand(o.raw[i]) {
        RawRoundTrip(bank.rawValues[i]);
      }
    } else if !t.imuOk || RcStale(lockstep, t) {
      WriteIsGated(o, bank.testValues[..], false, false);
    } else {
      WriteIsGated(o, mix, armed, false);
    }
  }

  /** What a pass wrote are commands, and outside motor tests they turn nothing unless armed. */
  predicate Gated(w: Option<Output>, armed: bool) {
    w.Some? ==>
      |w.value.raw| == MOTORS && (forall i :: 0 <= i < MOTORS ==> IsCommand(w.value.raw[i])) &&
      (!w.value.test && w.value.raw != [0, 0, 0, 0] ==> armed)
  }

  /** Every write was gated by the arming its readings lead to. */
  ghost predicate GatedRun(lockstep: bool, ticks: seq<Reading>, passes: seq<Option<Output>>) {
    |passes| == |ticks| && forall i :: 0 <= i < |passes| ==> Gated(passes[i], At(lockstep, ticks, i + 1).armed)
  }

  lemma GatedRunGrows(lockstep: bool, ticks: seq<Reading>, passes: seq<Option<Output>>, t: Reading, w: Option<Output>)
    requires GatedRun(lockstep, ticks, passes)
    requires Gated(w, Next(lockstep, At(lockstep, ticks, |ticks|), t).0.armed)
    ensures GatedRun(lockstep, ticks + [t], passes + [w])
    ensures At(lockstep, ticks + [t], |ticks| + 1) == Next(lockstep, At(lockstep, ticks, |ticks|), t).0
  {
    var more := ticks + [t];
    assert more[..|ticks|] == ticks == ticks[..|ticks|];
    AtNext(lockstep, more, |ticks|);
    forall i | 0 <= i < |more| ensures Gated((passes + [w])[i], At(lockstep, more, i + 1).armed) {
      if i < |ticks| {
        assert more[..i + 1] == ticks[..i + 1];
        assert Gated(passes[i], At(lockstep, ticks, i + 1).armed);
      }
    }
  }

  /** What goes to the predictor is the average of the window, if there is one. */
  ghost predicate Fits(w: Option<seq<Sample>>, fed: Option<Sample>) {
    (fed.Some? <==> w.Some?) && (fed.Some? ==> IsAverage(fed.value, w.value))
  }

  ghost predicate FedAt(lockstep: bool, ticks: seq<Reading>, i: nat, fed: Option<Sample>)
    requires i < |ticks|
  {
    Fits(EffectOf(lockstep, ticks, i).window, fed)
  }

  ghost predicate FedRun(lockstep: bool, ticks: seq<Reading>, feds: seq<Option<Sample>>) {
    |feds| == |ticks| && forall i :: 0 <= i < |feds| ==> FedAt(lockstep, ticks, i, feds[i])
  }

  lemma FedRunGrows(lockstep: bool, ticks: seq<Reading>, feds: seq<Option<Sample>>, t: Reading, fed: Option<Sample>)
    requires FedRun(lockstep, ticks, feds)
    requires Fits(Next(lockstep, At(lockstep, ticks, |ticks|), t).1.window, fed)
    ensures FedRun(lockstep, ticks + [t], feds + [fed])
  {
    var more := ticks + [t];
    assert more[..|ticks|] == ticks == ticks[..|ticks|];
    forall i | 0 <= i < |more| ensures FedAt(lockstep, more, i, (feds + [fed])[i]) {
      if i < |ticks| {
        assert more[..i] == ticks[..i];
        assert FedAt(lockstep, ticks, i, feds[i]);
      }
    }
  }

  /** The time handed to the predictor from pass a to pass b. */
  function FedDt(feds: seq<Option<Sample>>, a: nat, b: nat): real
    requires a <= b <= |feds|
  {
    if a == b then 0.0 else FedDt(feds, a, b - 1) + if feds[b - 1].Some? then feds[b - 1].value.dt else 0.0
  }

  lemma {:induction false} FedIsPredicted(
      lockstep: bool, ticks: seq<Reading>, feds: seq<Option<Sample>>, a: nat, b: nat)
    requires FedRun(lockstep, ticks, feds) && a <= b <= |ticks|
    ensures FedDt(feds, a, b) == PredictedDt(lockstep, ticks, a, b)
    decreases b
  {
    if a < b {
      FedIsPredicted(lockstep, ticks, feds, a, b - 1);
      assert FedAt(lockstep, ticks, b - 1, feds[b - 1]);
    }
  }

  /** No time is lost or counted twice: while armed, the time fed to the predictor and the time
      summed up for it are the time held at first and every tick's since. */
  lemma AllTimeIsFed(f: Flight, a: nat)
    requires f.Valid() && f.Recorded() && a <= |f.ticks|
    requires ArmedThroughout(f.lockstep, f.ticks, a, |f.ticks|)
    ensures FedDt(f.feds, a, |f.feds|) + f.dtSum ==
            TotalDt(At(f.lockstep, f.ticks, a).held) + ElapsedDt(f.ticks, a, |f.ticks|)
  {
    var n := |f.ticks|;
    FedIsPredicted(f.lockstep, f.ticks, f.feds, a, n);
    TimeConserved(f.lockstep, f.ticks, a, n);
    TotalTime(f.held);
  }

  lemma ToldIsGated(o: Output, lockstep: bool, t: Reading, armed: bool, mix: seq<real>, bank: MotorBank)
    requires bank.Valid() && |mix| == MOTORS && Told(o, lockstep, t, armed, mix, bank)
    ensures Gated(Some(o), armed)
  {
    DisarmedMeansStopped(o, lockstep, t, armed, mix, bank);
  }

  /** Over every run of passes: a motor told to turn in pass i, other than by a motor test, means the
      throttle was low at some pass since when IMU, RC freshness and arm switch have all held. */
  lemma TurningMeansArmedSince(f: Flight, i: nat)
    requires f.Recorded() && i < |f.passes| && f.passes[i].Some?
    requires !f.passes[i].value.test && f.passes[i].value.raw != [0, 0, 0, 0]
    ensures exists j: nat :: j <= i && ArmedSince(f.lockstep, f.ticks, j, i)
  {
    assert Gated(f.passes[i], At(f.lockstep, f.ticks, i + 1).armed);
    ArmedExactly(f.lockstep, f.ticks, i);
  }

  class Flight {
    const lockstep: bool
    const bank: MotorBank
    var armed: bool
    var mode: Mode
    var autolevelCountdown: nat
    var backgroundCountdown: nat
    var gyroSum: Vec
    var accelSum: Vec
    var dtSum: real
    var sampleCount: nat
    ghost var held: seq<Sample>
    /** What was read, fed and written, pass by pass. */
    ghost var ticks: seq<Reading>
    ghost var feds: seq<Option<Sample>>
    ghost var passes: seq<Option<Output>>

    ghost function Abstract(): Loop
      reads this
    {
      Loop(armed, mode, autolevelCountdown, backgroundCountdown, held)
    }

    /** The sums stand for the samples held. */
    ghost predicate Valid()
      reads this
    {
      sampleCount == |held| && Sample(gyroSum, accelSum, dtSum) == Total(held)
    }

    /** The state is the one the readings lead to, every feed was the average of its window, and every
        write was gated by the arming then. */
    ghost predicate Recorded()
      reads this
    {
      Abstract() == At(lockstep, ticks, |ticks|) && FedRun(lockstep, ticks, feds) &&
      GatedRun(lockstep, ticks, passes)
    }

    constructor (lockstep: bool, bank: MotorBank)
      ensures Valid() && Abstract() == START && this.lockstep == lockstep && this.bank == bank
      ensures Recorded() && ticks == []
    {
      this.lockstep, this.bank := lockstep, bank;
      armed, mode, autolevelCountdown, backgroundCountdown := false, Acro, 0, 0;
      gyroSum, accelSum, dtSum, sampleCount, held := ZERO, ZERO, 0.0, 0, [];
      ticks, feds, passes := [], [], [];
    }

    method ClearSums()
      modifies this`gyroSum, this`accelSum, this`dtSum, this`sampleCount, this`held
      ensures Valid() && held == []
    {
      gyroSum, accelSum, dtSum, sampleCount, held := ZERO, ZERO, 0.0, 0, [];
    }

    method AddSample(x: Sample)
      requires Valid()
      modifies this`gyroSum, this`accelSum, this`dtSum, this`sampleCount, this`held
      ensures Valid() && held == old(held) + [x]
    {
      assert (held + [x])[..|held|] == held;
      gyroSum, accelSum, dtSum := Plus(gyroSum, x.gyro), Plus(accelSum, x.accel), dtSum + x.dt;
      sampleCount, held := sampleCount + 1, held + [x];
    }

    method AttitudeUpdateDue(m: Mode) returns (due: bool)
      modifies this`autolevelCountdown, this`backgroundCountdown
      ensures var (l, d) := Scheduled(old(Abstract()), armed, m);
              due == d && Abstract() == l
    {
      if armed && m == AutoLevel {
        due, autolevelCountdown := LoopDividerExpired(autolevelCountdown, AUTOLEVEL_DIV);
      } else {
        due, backgroundCountdown := LoopDividerExpired(backgroundCountdown, BACKGROUND_DIV);
      }
    }

    method Arm(t: Reading)
      modifies this`armed
      ensures armed == Armed(lockstep, old(Abstract()), t)
      ensures armed <==> t.imuOk && t.rcValid && (lockstep || t.now - t.rcStamp <= 100) && t.armSwitch &&
                         (old(armed) || t.throttle <= 1050)
    {
      if !t.imuOk || RcStale(lockstep, t) || !t.armSwitch {
        armed := false;
      } else if !armed && t.throttle <= THROTTLE_ARM_MAX {
        armed := true;
      }
    }

    /** One good sample, or none, on top of those held. */
    method Gather(t: Reading)
      requires Valid()
      modifies this`gyroSum, this`accelSum, this`dtSum, this`sampleCount, this`held
      ensures Valid() && held == if t.imuOk then old(held) + [SampleOf(t)] else []
    {
      if t.imuOk {
        AddSample(Sample(t.gyro, t.accel, if t.dt <= 0.0 then CONTROL_DT else t.dt));
      } else {
        ClearSums();
      }
    }

    /** The samples held, averaged for the predictor, kept, or dropped. */
    method Feed(imuOk: bool, due: bool) returns (fed: Option<Sample>)
      requires Valid() && (imuOk ==> held != [])
      modifies this`gyroSum, this`accelSum, this`dtSum, this`sampleCount, this`held
      ensures Valid() && held == if imuOk && due then [] else old(held)
      ensures Fits(if armed && imuOk && due then Some(old(held)) else None, fed)
    {
      fed := None;
      if held != [] { MeanIsAverage(held); }
      if !armed {
        if imuOk && due { ClearSums(); }
      } else if imuOk && due && sampleCount > 0 {
        var k := 1.0 / sampleCount as real;
        fed := Some(Sample(Scale(gyroSum, k), Scale(accelSum, k), dtSum));
        ClearSums();
      }
    }

    /** Arming, then the scheduler, then the samples. */
    method Update(t: Reading) returns (fed: Option<Sample>, reset: bool)
      requires Valid()
      modifies this`armed, this`mode, this`autolevelCountdown, this`backgroundCountdown
      modifies this`gyroSum, this`accelSum, this`dtSum, this`sampleCount, this`held
      ensures Valid() && Abstract() == Next(lockstep, old(Abstract()), t).0
      ensures var e := Next(lockstep, old(Abstract()), t).1;
              reset == e.reset && Fits(e.window, fed)
    {
      var wasArmed, previousMode := armed, mode;
      mode := t.mode;
      Arm(t);
      var due := AttitudeUpdateDue(t.mode);
      reset := !armed || !wasArmed || t.mode != previousMode;
      Gather(t);
      fed := Feed(t.imuOk, due);
    }

    /** The pass's one write to the motors. `mix` is the controllers' result. */
    method WriteMotors(t: Reading, mix: array<real>, atTarget: bool)
      requires bank.Valid() && mix.Length == MOTORS && mix != bank.testValues
      modifies bank`outputs
      ensures bank.Valid()
      ensures !atTarget ==> bank.outputs == old(bank.outputs)
      ensures atTarget ==> |bank.outputs| == |old(bank.outputs)| + 1
      ensures atTarget ==> bank.outputs[..|old(bank.outputs)|] == old(bank.outputs)
      ensures atTarget ==> Told(bank.outputs[|old(bank.outputs)|], lockstep, t, armed, mix[..], bank)
    {
      var motors := new real[MOTORS](_ => 0.0);
      var testing := bank.TestGet(motors);
      if testing {
        bank.WriteAll(motors, true, true, atTarget);
        return;
      }
      var raw := new nat[MOTORS](_ => 0);
      var rawTesting := bank.RawTestGet(raw);
      if rawTesting {
        bank.WriteAllRaw(raw, true, atTarget);
        return;
      }
      if !t.imuOk || RcStale(lockstep, t) {
        bank.WriteAll(motors, false, false, atTarget);
        return;
      }
      bank.WriteAll(mix, armed, false, atTarget);
    }

    /** One pass of the loop. Between passes anyone may set up a motor test. */
    method Pass(t: Reading, mix: array<real>, atTarget: bool) returns (fed: Option<Sample>, reset: bool)
      requires Valid() && Recorded() && bank.Valid() && mix.Length == MOTORS && mix != bank.testValues
      modifies this, bank`outputs
      ensures Valid() && Recorded() && bank.Valid() && Abstract() == Next(lockstep, old(Abstract()), t).0
      ensures var e := Next(lockstep, old(Abstract()), t).1;
              reset == e.reset && Fits(e.window, fed)
      ensures ticks == old(ticks) + [t] && feds == old(feds) + [fed]
      ensures |passes| == |old(passes)| + 1 && passes[..|old(passes)|] == old(passes)
      ensures passes[|old(passes)|].Some? == atTarget
      ensures bank.outputs == old(bank.outputs) + if atTarget then [passes[|old(passes)|].value] else []
      ensures atTarget && !bank.testActive && !bank.rawActive && armed && t.imuOk && t.rcValid &&
              (lockstep || t.now - t.rcStamp <= 100) ==>
                var o := passes[|old(passes)|].value;
                !o.test && IsDriven(o, mix[..])
      ensures atTarget && !bank.testActive && !bank.rawActive &&
              (!armed || !t.imuOk || !t.rcValid || (!lockstep && t.now - t.rcStamp > 100)) ==>
                var o := passes[|old(passes)|].value;
                !o.test && IsStopped(o)
      ensures atTarget && bank.testActive ==>
                var o := passes[|old(passes)|].value;
                o.test && IsDriven(o, bank.testValues[..])
      ensures atTarget && !bank.testActive && bank.rawActive ==>
                var o := passes[|old(passes)|].value;
                o.test && IsDrivenRaw(o, bank.rawValues[..])
    {
      fed, reset := Update(t);
      ghost var w := Command(t, mix, atTarget);
      Record(t, fed, w);
      if atTarget { ToldExactly(w.value, lockstep, t, armed, mix[..], bank); }
    }

    ghost method Record(t: Reading, fed: Option<Sample>, w: Option<Output>)
      requires FedRun(lockstep, ticks, feds) && GatedRun(lockstep, ticks, passes)
      requires Abstract() == Next(lockstep, At(lockstep, ticks, |ticks|), t).0 && Gated(w, armed)
      requires Fits(Next(lockstep, At(lockstep, ticks, |ticks|), t).1.window, fed)
      modifies this`ticks, this`feds, this`passes
      ensures Recorded() && ticks == old(ticks) + [t] && feds == old(feds) + [fed] && passes == old(passes) + [w]
    {
      GatedRunGrows(lockstep, ticks, passes, t, w);
      FedRunGrows(lockstep, ticks, feds, t, fed);
      ticks, feds, passes := ticks + [t], feds + [fed], passes + [w];
    }

    method Command(t: Reading, mix: array<real>, atTarget: bool) returns (ghost w: Option<Output>)
      requires bank.Valid() && mix.Length == MOTORS && mix != bank.testValues
      modifies bank`outputs
      ensures bank.Valid() && Gated(w, armed) && w.Some? == atTarget
      ensures atTarget ==> Told(w.value, lockstep, t, armed, mix[..], bank)
      ensures bank.outputs == old(bank.outputs) + if atTarget then [w.value] else []
    {
      ghost var before := bank.outputs;
      WriteMotors(t, mix, atTarget);
      w := None;
      if atTarget {
        w := Some(bank.outputs[|before|]);
        ToldIsGated(w.value, lockstep, t, armed, mix[..], bank);
        assert bank.outputs == before + [w.value];
      }
    }
  }
}
