/** Controller time in lockstep: one input sets a target, and ticks of at most one control period
    lead up to it. */
module Clock {
  import opened Wrappers

  const PERIOD := 625000
  const PUBLISH_DIV := 8

  // ---- Ticks -------------------------------------------------------------------------------

  /** The target an input's time stamp sets: never in the past, so time always advances. */
  function NewTarget(current: nat, stamp: nat): (t: nat)
    ensures t > current
    ensures stamp > current ==> t == stamp
    ensures stamp <= current ==> t == current + PERIOD
  {
    if stamp <= current then current + PERIOD else stamp
  }

  function NextTick(current: nat, target: nat): nat {
    if current + PERIOD > target then target else current + PERIOD
  }

  /** The lengths of the ticks from current to target. */
  function Ticks(current: nat, target: nat): (dts: seq<nat>)
    decreases if current < target then target - current else 0
  {
    if current >= target then []
    else
      var next := NextTick(current, target);
      [next - current] + Ticks(next, target)
  }

  function Sum(dts: seq<nat>): nat {
    if dts == [] then 0 else dts[0] + Sum(dts[1..])
  }

  function CeilDiv(a: nat, b: nat): nat
    requires b > 0
  {
    (a + b - 1) / b
  }

  /** An input takes exactly as many ticks as whole or begun periods fit; all of them but the last
      are one period long, none is empty, and together they are the advance. */
  lemma {:induction false} TicksExact(current: nat, target: nat)
    requires current <= target
    ensures var dts := Ticks(current, target);
            |dts| == CeilDiv(target - current, PERIOD) && Sum(dts) == target - current
    ensures var dts := Ticks(current, target);
            forall i :: 0 <= i < |dts| ==> 0 < dts[i] <= PERIOD && (i < |dts| - 1 ==> dts[i] == PERIOD)
    decreases target - current
  {
    if current < target {
      var next := NextTick(current, target);
      TicksExact(next, target);
      var rest := Ticks(next, target);
      assert Ticks(current, target)[1..] == rest;
      if next < target { assert |rest| > 0 by { assert target - next >= 1; } }
    }
  }

  /** A plant at 200 Hz costs eight ticks an input. */
  lemma PlantStepIsEightTicks(current: nat)
    ensures |Ticks(current, NewTarget(current, current + 5000000))| == 8
  {
    TicksExact(current, current + 5000000);
  }

  /** The divider the control loop slows things down with. */
  method LoopDividerExpired(countdown: nat, divisor: nat) returns (expired: bool, next: nat)
    requires divisor > 0
    ensures expired == (countdown == 0)
    ensures next == Divided(countdown, divisor)
  {
    if countdown > 0 { return false, countdown - 1; }
    return true, divisor - 1;
  }

  function Divided(countdown: nat, divisor: nat): nat
    requires divisor > 0
  {
    if countdown > 0 then countdown - 1 else divisor - 1
  }

  /** The countdown after n calls, from zero. */
  function Countdown(n: nat, divisor: nat): nat
    requires divisor > 0
  {
    if n == 0 then 0 else Divided(Countdown(n - 1, divisor), divisor)
  }

  lemma {:induction false} CountdownPeriodic(n: nat, divisor: nat)
    requires divisor > 0
    ensures Countdown(n, divisor) == (divisor - 1) - (n + divisor - 1) % divisor
  {
    if n > 0 {
      CountdownPeriodic(n - 1, divisor);
      OneCountMore(n + divisor - 1, divisor);
    } else {
      SmallMod(divisor - 1, divisor);
    }
  }

  lemma SmallMod(x: nat, d: nat)
    requires x < d
    ensures x % d == x
  {
  }

  lemma OneCountMore(x: nat, d: nat)
    requires d > 0 && x > 0
    ensures Divided((d - 1) - (x - 1) % d, d) == (d - 1) - x % d
  {
    StepMod(x, d);
  }

  lemma StepMod(x: nat, d: nat)
    requires d > 0 && x > 0
    ensures x % d == if (x - 1) % d == d - 1 then 0 else (x - 1) % d + 1
  {
    var q, r := (x - 1) / d, (x - 1) % d;
    assert x - 1 == q * d + r;
    if r == d - 1 {
      assert x == (q + 1) * d;
      ModOf(q + 1, 0, d);
    } else {
      ModOf(q, r + 1, d);
    }
  }

  lemma ModOf(q: nat, r: nat, d: nat)
    requires r < d
    ensures (q * d + r) % d == r
  {
    var x := q * d + r;
    var k := x / d - q;
    assert k * d == r - x % d by {
      assert x == x / d * d + x % d;
    }
    Multiples(k, d);
  }

  lemma Multiples(k: int, d: int)
    requires d > 0
    ensures k >= 1 ==> k * d >= d
    ensures k <= -1 ==> k * d <= -d
  {
  }

  /** The divider expires on call 0, d, 2d, ... and on no other. */
  lemma ExpiresEveryDivisor(n: nat, divisor: nat)
    requires divisor > 0
    ensures Countdown(n, divisor) == 0 <==> n % divisor == 0
  {
    CountdownPeriodic(n, divisor);
    if n > 0 {
      StepMod(n, divisor);
      AddDivisor(n - 1, divisor);
      assert n + divisor - 1 == n - 1 + divisor;
    } else {
      SmallMod(divisor - 1, divisor);
    }
  }

  lemma AddDivisor(x: nat, d: nat)
    requires d > 0
    ensures (x + d) % d == x % d
  {
    assert x + d == (x / d + 1) * d + x % d;
    ModOf(x / d + 1, x % d, d);
  }

  // ---- The controller's clock --------------------------------------------------------------

  datatype TickTime = TickTime(dt: nat, stamp: nat)

  class LockstepClock {
    var current: nat
    var target: nat

    ghost predicate Valid()
      reads this
    {
      current <= target
    }

    constructor ()
      ensures Valid() && current == 0 && target == 0
    {
      current, target := 0, 0;
    }

    predicate AtTarget()
      reads this
    {
      current >= target
    }

    /** Waits for inputs until there is a tick to run. `answers` are what waiting and reading would
        give one after another, a time stamp or a failure; one of them is enough. */
    method WaitUntilTickReady(answers: seq<Option<nat>>) returns (ok: bool, used: nat)
      requires Valid() && answers != []
      modifies this`target
      ensures Valid() && used == (if old(AtTarget()) then 1 else 0)
      ensures ok == (old(AtTarget()) ==> answers[0].Some?)
      ensures ok ==> !AtTarget()
      ensures target == if old(AtTarget()) && answers[0].Some? then NewTarget(current, answers[0].value)
                        else old(target)
    {
      used := 0;
      while current >= target
        invariant Valid() && used <= 1
        invariant used == 0 ==> target == old(target)
        invariant used == 1 ==> old(AtTarget()) && answers[0].Some? && !AtTarget()
        invariant used == 1 ==> target == NewTarget(current, answers[0].value)
        decreases 1 - used
      {
        var answer := answers[used];
        used := used + 1;
        if answer == None { return false, used; }
        target := if answer.value <= current then current + PERIOD else answer.value;
      }
      ok := true;
    }

    /** One controller tick: its length and the time it ends at. */
    method WaitNext(answers: seq<Option<nat>>) returns (tick: Option<TickTime>)
      requires Valid() && answers != []
      modifies this
      ensures Valid() && current >= old(current)
      ensures tick == None <==> old(AtTarget()) && answers[0] == None
      ensures tick == None ==> current == old(current) && target == old(target)
      ensures target == if old(AtTarget()) && answers[0].Some? then NewTarget(old(current), answers[0].value)
                        else old(target)
      ensures tick.Some? ==> Ticks(old(current), target) == [tick.value.dt] + Ticks(current, target)
      ensures tick.Some? ==> tick.value.stamp == current && current == old(current) + tick.value.dt
    {
      var ok, _ := WaitUntilTickReady(answers);
      if !ok { return None; }
      var next := current + PERIOD;
      if next > target { next := target; }
      tick := Some(TickTime(next - current, next));
      current := next;
    }
  }
}
