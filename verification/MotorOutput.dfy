/** What is written to the four motors: normalised commands turned into DSHOT values, the gate that
    zeroes them while disarmed, and the two motor tests that bypass it. */
module MotorOutput {
  const MOTORS := 4
  const DSHOT_DISARMED := 0
  const DSHOT_MIN := 48
  const DSHOT_MAX := 2047
  const IDLE_THROTTLE := 0.0

  function Clamp(v: real, lo: real, hi: real): (r: real)
    ensures lo <= hi ==> lo <= r <= hi && (lo <= v <= hi ==> r == v) && (v < lo ==> r == lo) && (v > hi ==> r == hi)
  {
    if v < lo then lo else if v > hi then hi else v
  }

  /** Truncation toward zero, as the conversion to an unsigned integer does it. */
  function Truncate(v: real): nat
    requires v >= 0.0
  {
    v.Floor
  }

  function ToDshot(normalized: real, armed: bool): nat {
    var minOutput := if armed then IDLE_THROTTLE else 0.0;
    var clamped := Clamp(normalized, minOutput, 1.0);
    var span := (DSHOT_MAX - DSHOT_MIN) as real;
    if !armed || clamped <= 0.0 then DSHOT_DISARMED
    else Truncate(DSHOT_MIN as real + clamped * span + 0.5)
  }

  predicate IsCommand(v: nat) {
    v == 0 || 48 <= v <= 2047
  }

  /** Full scale for a command in (0, 1], rounded to the nearest value; zero for anything else. */
  lemma ToDshotMeaning(n: real, armed: bool)
    ensures IsCommand(ToDshot(n, armed))
    ensures ToDshot(n, armed) == 0 <==> !armed || n <= 0.0
    ensures armed && 0.0 < n <= 1.0 ==> -0.5 <= 48.0 + 1999.0 * n - ToDshot(n, armed) as real < 0.5
    ensures armed && n >= 1.0 ==> ToDshot(n, armed) == 2047
  {
    var c := Clamp(n, 0.0, 1.0);
    assert 0.0 <= c * 1999.0 <= 1999.0;
  }

  lemma ToDshotMonotone(m: real, n: real)
    requires m <= n
    ensures ToDshot(m, true) <= ToDshot(n, true)
  {
    var c, d := Clamp(m, 0.0, 1.0), Clamp(n, 0.0, 1.0);
    assert c * 1999.0 <= d * 1999.0;
    ToDshotMeaning(n, true);
  }

  // ---- One write ---------------------------------------------------------------------------

  datatype Output = Output(applied: seq<real>, raw: seq<nat>, armed: bool, test: bool)

  function Applied(v: real, armed: bool): real {
    if armed then Clamp(v, IDLE_THROTTLE, 1.0) else 0.0
  }

  function Written(v: real, armed: bool): nat {
    ToDshot(Applied(v, armed), armed && Applied(v, armed) > 0.0)
  }

  predicate IsWriteOf(o: Output, motors: seq<real>, armed: bool, test: bool)
    requires |motors| == MOTORS
  {
    |o.applied| == |o.raw| == MOTORS && o.armed == armed && o.test == test &&
    forall i :: 0 <= i < MOTORS ==> o.applied[i] == Applied(motors[i], armed) && o.raw[i] == Written(motors[i], armed)
  }

  /** Motor by motor, while armed: the command is what was asked for, cut to [0, 1], and the DSHOT
      value is zero for a command of zero and else the one nearest to full scale. */
  predicate IsDriven(o: Output, asked: seq<real>) {
    o.armed && |asked| == |o.applied| == |o.raw| == 4 &&
    forall i :: 0 <= i < 4 ==>
      (asked[i] <= 0.0 ==> o.applied[i] == 0.0 && o.raw[i] == 0) &&
      (0.0 < asked[i] <= 1.0 ==>
         o.applied[i] == asked[i] && 48 <= o.raw[i] <= 2047 &&
         -0.5 <= 48.0 + 1999.0 * asked[i] - o.raw[i] as real < 0.5) &&
      (asked[i] > 1.0 ==> o.applied[i] == 1.0 && o.raw[i] == 2047)
  }

  predicate IsStopped(o: Output) {
    !o.armed && o.applied == [0.0, 0.0, 0.0, 0.0] && o.raw == [0, 0, 0, 0]
  }

  /** Disarmed, all four are zero whatever was asked; armed, each gets what it was asked for. */
  lemma WriteIsGated(o: Output, motors: seq<real>, armed: bool, test: bool)
    requires |motors| == MOTORS && IsWriteOf(o, motors, armed, test)
    ensures o.test == test && if armed then IsDriven(o, motors) else IsStopped(o)
  {
    if armed {
      forall i | 0 <= i < MOTORS
        ensures o.applied[i] == Clamp(motors[i], 0.0, 1.0) && o.raw[i] == ToDshot(o.applied[i], o.applied[i] > 0.0)
      {
      }
      forall i | 0 <= i < MOTORS
        ensures IsCommand(o.raw[i]) && (o.raw[i] == 0 <==> motors[i] <= 0.0)
        ensures motors[i] >= 1.0 ==> o.raw[i] == 2047
        ensures 0.0 < motors[i] <= 1.0 ==> -0.5 <= 48.0 + 1999.0 * motors[i] - o.raw[i] as real < 0.5
      {
        ToDshotMeaning(o.applied[i], o.applied[i] > 0.0);
      }
    }
  }

  // ---- One raw write -----------------------------------------------------------------------

  function RawClamped(v: nat): nat {
    if v != DSHOT_DISARMED && v < DSHOT_MIN then DSHOT_MIN else if v > DSHOT_MAX then DSHOT_MAX else v
  }

  function RawApplied(v: nat): real {
    var c := RawClamped(v);
    if c == DSHOT_DISARMED then 0.0 else (c - DSHOT_MIN) as real / (DSHOT_MAX - DSHOT_MIN) as real
  }

  predicate IsRawWriteOf(o: Output, raw: seq<nat>, test: bool)
    requires |raw| == MOTORS
  {
    |o.applied| == |o.raw| == MOTORS && o.test == test &&
    (o.armed <==> exists i :: 0 <= i < MOTORS && raw[i] != DSHOT_DISARMED) &&
    forall i :: 0 <= i < MOTORS ==> o.raw[i] == RawClamped(raw[i]) && o.applied[i] == RawApplied(raw[i])
  }

  /** A raw value and the normalised command reported for it mean the same, with one exception: the
      lowest throttle value is reported as a command of zero, which would stop the motor. */
  lemma RawRoundTrip(v: nat)
    ensures IsCommand(RawClamped(v)) && 0.0 <= RawApplied(v) <= 1.0
    ensures IsCommand(v) ==> RawClamped(v) == v
    ensures 0 < v < 48 ==> RawClamped(v) == 48
    ensures v > 2047 ==> RawClamped(v) == 2047
    ensures v == 0 ==> RawApplied(v) == 0.0
    ensures v != 0 ==> 48.0 + 1999.0 * RawApplied(v) == RawClamped(v) as real
    ensures Written(RawApplied(v), true) == RawClamped(v) <==> RawClamped(v) != 48
  {
    var c := RawClamped(v);
    if c != DSHOT_DISARMED {
      var x := (c - DSHOT_MIN) as real / 1999.0;
      assert x * 1999.0 == (c - DSHOT_MIN) as real;
      assert 0.0 <= x <= 1.0;
    }
  }

  /** Zeros are left alone and everything else is cut to the throttle range; armed when any motor is
      to turn. */
  predicate IsDrivenRaw(o: Output, asked: seq<nat>) {
    |asked| == |o.raw| == 4 && (o.armed <==> o.raw != [0, 0, 0, 0]) &&
    forall i :: 0 <= i < 4 ==>
      o.raw[i] == if asked[i] == 0 then 0 else if asked[i] < 48 then 48 else if asked[i] > 2047 then 2047 else asked[i]
  }

  lemma RawWriteIsCut(o: Output, raw: seq<nat>, test: bool)
    requires |raw| == MOTORS && IsRawWriteOf(o, raw, test)
    ensures o.test == test && IsDrivenRaw(o, raw)
  {
    if i :| 0 <= i < MOTORS && raw[i] != 0 { assert o.raw[i] != 0; }
  }

  // ---- The module's state ------------------------------------------------------------------

  class MotorBank {
    const testValues: array<real>
    const rawValues: array<nat>
    var testActive: bool
    var rawActive: bool
    ghost var outputs: seq<Output>

    ghost predicate Valid()
      reads this, testValues
    {
      testValues.Length == rawValues.Length == MOTORS &&
      forall i :: 0 <= i < MOTORS ==> 0.0 <= testValues[i] <= 1.0
    }

    /** At boot all motors are written off once, before anything else runs. */
    constructor ()
      ensures Valid() && !testActive && !rawActive && fresh(testValues) && fresh(rawValues)
      ensures rawValues[..] == [0, 0, 0, 0]
      ensures outputs == [Output([0.0, 0.0, 0.0, 0.0], [0, 0, 0, 0], false, false)]
    {
      testValues := new real[MOTORS](_ => 0.0);
      rawValues := new nat[MOTORS](_ => DSHOT_DISARMED);
      testActive, rawActive := false, false;
      outputs := [Output([0.0, 0.0, 0.0, 0.0], [0, 0, 0, 0], false, false)];
    }

    /** Writes all four motors; in lockstep only at the target of an input. */
    method WriteAll(motors: array<real>, armed: bool, test: bool, atTarget: bool)
      requires Valid() && motors.Length == MOTORS
      modifies this`outputs
      ensures !atTarget ==> outputs == old(outputs)
      ensures atTarget ==> |outputs| == |old(outputs)| + 1 && outputs[..|old(outputs)|] == old(outputs)
      ensures atTarget ==> IsWriteOf(outputs[|old(outputs)|], motors[..], armed, test)
    {
      if !atTarget { return; }
      var minOutput := if armed && !test then IDLE_THROTTLE else 0.0;
      var applied := new real[MOTORS](_ => 0.0);
      var raw := new nat[MOTORS](_ => 0);
      for i := 0 to MOTORS
        invariant outputs == old(outputs)
        invariant forall k :: 0 <= k < i ==>
          applied[k] == Applied(motors[k], armed) && raw[k] == Written(motors[k], armed)
      {
        applied[i] := if armed then Clamp(motors[i], minOutput, 1.0) else 0.0;
        raw[i] := ToDshot(applied[i], armed && applied[i] > 0.0);
      }
      outputs := outputs + [Output(applied[..], raw[..], armed, test)];
    }

    method WriteAllRaw(values: array<nat>, test: bool, atTarget: bool)
      requires Valid() && values.Length == MOTORS
      modifies this`outputs
      ensures !atTarget ==> outputs == old(outputs)
      ensures atTarget ==> |outputs| == |old(outputs)| + 1 && outputs[..|old(outputs)|] == old(outputs)
      ensures atTarget ==> IsRawWriteOf(outputs[|old(outputs)|], values[..], test)
    {
      if !atTarget { return; }
      var applied := new real[MOTORS](_ => 0.0);
      var clamped := new nat[MOTORS](_ => 0);
      var armed := false;
      for i := 0 to MOTORS
        invariant outputs == old(outputs)
        invariant armed <==> exists k :: 0 <= k < i && values[k] != DSHOT_DISARMED
        invariant forall k :: 0 <= k < i ==>
          clamped[k] == RawClamped(values[k]) && applied[k] == RawApplied(values[k])
      {
        var value := values[i];
        if value != DSHOT_DISARMED && value < DSHOT_MIN { value := DSHOT_MIN; }
        if value > DSHOT_MAX { value := DSHOT_MAX; }
        clamped[i] := value;
        if value == DSHOT_DISARMED {
          applied[i] := 0.0;
        } else {
          applied[i] := (value - DSHOT_MIN) as real / (DSHOT_MAX - DSHOT_MIN) as real;
          armed := true;
        }
      }
      outputs := outputs + [Output(applied[..], clamped[..], armed, test)];
    }

    method TestGet(motors: array<real>) returns (active: bool)
      requires Valid() && motors.Length == MOTORS && motors != testValues
      modifies motors
      ensures motors[..] == testValues[..] && active == testActive
    {
      for i := 0 to MOTORS
        invariant forall k :: 0 <= k < i ==> motors[k] == testValues[k]
      {
        motors[i] := testValues[i];
      }
      active := testActive;
    }

    method TestSet(index: nat, value: real)
      requires Valid() && index < MOTORS
      modifies this`testActive, testValues
      ensures Valid() && testActive
      ensures testValues[..] == old(testValues[..])[index := Clamp(value, 0.0, 1.0)]
    {
      testValues[index] := Clamp(value, 0.0, 1.0);
      testActive := true;
    }

    method TestClear()
      requires Valid()
      modifies this`testActive, testValues
      ensures Valid() && !testActive && testValues[..] == [0.0, 0.0, 0.0, 0.0]
    {
      for i := 0 to MOTORS
        invariant forall k :: 0 <= k < i ==> testValues[k] == 0.0
        invariant Valid()
      {
        testValues[i] := 0.0;
      }
      testActive := false;
    }

    method RawTestGet(raw: array<nat>) returns (active: bool)
      requires Valid() && raw.Length == MOTORS && raw != rawValues
      modifies raw
      ensures raw[..] == rawValues[..] && active == rawActive
    {
      for i := 0 to MOTORS
        invariant forall k :: 0 <= k < i ==> raw[k] == rawValues[k]
      {
        raw[i] := rawValues[i];
      }
      active := rawActive;
    }

    method RawTestSet(index: nat, value: nat)
      requires Valid() && index < MOTORS
      modifies this`rawActive, rawValues
      ensures Valid() && rawActive && rawValues[..] == old(rawValues[..])[index := value]
    {
      rawValues[index] := value;
      rawActive := true;
    }

    method RawTestSetAll(value: nat)
      requires Valid()
      modifies this`rawActive, rawValues
      ensures Valid() && rawActive && rawValues[..] == [value, value, value, value]
    {
      FillRaw(value);
      rawActive := true;
    }

    method RawTestClear()
      requires Valid()
      modifies this`rawActive, rawValues
      ensures Valid() && !rawActive && rawValues[..] == [0, 0, 0, 0]
    {
      FillRaw(DSHOT_DISARMED);
      rawActive := false;
    }

    method FillRaw(value: nat)
      requires Valid()
      modifies rawValues
      ensures Valid() && rawValues[..] == [value, value, value, value]
    {
      for i := 0 to MOTORS
        invariant forall k :: 0 <= k < i ==> rawValues[k] == value
      {
        rawValues[i] := value;
      }
    }
  }
}
