/** Every lockstep exchange comes to its end: each step that changes something brings it nearer, and
    some thread can always take one. */
module Liveness {
  import opened Bytes
  import opened Clock
  import opened Exchange

  function Restless<M>(s: State<M>): nat {
    if s.controller == Booting then 2 else if s.controller == Asking then 1 else 0
  }

  /** The ticks the input under way will take. */
  function TicksAhead<M>(law: Law<M>, s: State<M>): nat {
    if s.sent == [] then 0
    else |Ticks(s.plane.clock, NewTarget(s.plane.clock, law.stamp(s.sent[|s.sent| - 1])))|
  }

  function Left(n: nat, done: nat): nat {
    if done < n then n - done else 0
  }

  /** Steps left once the controller has finished the input and gone back to wait. */
  const ANSWERING := 2 * ANSWER_SIZE + 5

  /** How many steps that change something the exchange under way can still take. */
  function Remaining<M>(law: Law<M>, s: State<M>): nat {
    match s.host
    case Resting => 0
    case Copying(_, k) => ANSWERING + SAMPLE_SIZE + 9 + Left(SAMPLE_SIZE, k) + TicksAhead(law, s) + Restless(s)
    case Posting(_) => ANSWERING + SAMPLE_SIZE + 8 + TicksAhead(law, s) + Restless(s)
    case Collecting(got) => Left(ANSWER_SIZE, |got|) + 1 + Restless(s)
    case Spinning =>
      match s.coordinator
      case Waiting =>
        if s.handled != s.shared.inSeq then ANSWERING + SAMPLE_SIZE + 7 + TicksAhead(law, s) + Restless(s)
        else ANSWER_SIZE + 2 + Restless(s)
      case Handling(bytes) => ANSWERING + 6 + Left(SAMPLE_SIZE, |bytes|) + TicksAhead(law, s)
      case Publishing(_) => ANSWERING + 5 + TicksAhead(law, s)
      case Giving => ANSWERING + 4 + TicksAhead(law, s)
      case Polling =>
        if s.controller.Ticking? then ANSWERING + 1 + |Ticks(s.plane.clock, s.controller.target)|
        else if s.seen < s.generation then
          ANSWERING + (if s.controller == Blocked then 3 else 2) + TicksAhead(law, s)
        else ANSWERING + Restless(s)
      case Answering(blob, k) => ANSWER_SIZE + 4 + Left(|blob|, k)
      case Responding => ANSWER_SIZE + 3
      case Dead => 0
  }

  predicate UnderWay<M>(s: State<M>) {
    s.host != Resting && s.coordinator != Dead
  }

  /** Whatever a thread does, unless it does nothing, brings the exchange nearer its end. */
  predicate Nearer<M(==)>(law: Law<M>, s: State<M>, t: State<M>) {
    t.sent == s.sent && (t == s || !UnderWay(t) || Remaining(law, t) < Remaining(law, s))
  }

  lemma HostDescends<M>(law: Law<M>, s: State<M>)
    requires Base(law, s) && UnderWay(s)
    ensures Nearer(law, s, HostStep(s))
  {
  }

  lemma AnswerDescends<M>(law: Law<M>, s: State<M>)
    requires Base(law, s) && UnderWay(s) && ControllerWaits(s)
    requires s.coordinator.Polling? || s.coordinator.Answering? || s.coordinator.Responding?
    ensures Nearer(law, s, CoordinatorStep(law, s))
  {
  }

  lemma InputDescends<M>(law: Law<M>, s: State<M>)
    requires Base(law, s) && UnderWay(s) && ControllerWaits(s)
    requires !s.coordinator.Polling? && !s.coordinator.Answering? && !s.coordinator.Responding?
    ensures Nearer(law, s, CoordinatorStep(law, s))
  {
  }

  lemma CoordinatorDescends<M>(law: Law<M>, s: State<M>)
    requires Base(law, s) && UnderWay(s) && ControllerWaits(s)
    ensures Nearer(law, s, CoordinatorStep(law, s))
  {
    match s.coordinator
    case Polling => AnswerDescends(law, s);
    case Answering(_, _) => AnswerDescends(law, s);
    case Responding => AnswerDescends(law, s);
    case _ => InputDescends(law, s);
  }

  lemma TickDescends<M>(law: Law<M>, s: State<M>)
    requires Base(law, s) && UnderWay(s) && s.controller.Ticking?
    ensures Nearer(law, s, ControllerStep(law, s))
  {
  }

  lemma AskDescends<M>(law: Law<M>, s: State<M>)
    requires Base(law, s) && UnderWay(s) && !s.controller.Ticking?
    ensures Nearer(law, s, ControllerStep(law, s))
  {
  }

  lemma ControllerDescends<M>(law: Law<M>, s: State<M>)
    requires Base(law, s) && UnderWay(s)
    ensures Nearer(law, s, ControllerStep(law, s))
  {
    if s.controller.Ticking? { TickDescends(law, s); } else { AskDescends(law, s); }
  }

  lemma Longer(got: seq<byte>, b: byte)
    ensures got + [b] != got
  {
    assert |got + [b]| > |got|;
  }

  lemma ControllerMoves<M>(law: Law<M>, s: State<M>)
    requires Base(law, s) && !ControllerWaits(s)
    ensures ControllerStep(law, s) != s
  {
    if s.controller.Ticking? {
      assert OneTick(law, s.plane, s.controller.sample, s.controller.target).clock != s.plane.clock;
    }
  }

  lemma CoordinatorMoves<M>(law: Law<M>, s: State<M>)
    requires Base(law, s) && ControllerWaits(s) && s.coordinator != Dead
    requires s.coordinator != Waiting || s.handled != s.shared.inSeq
    ensures CoordinatorStep(law, s) != s
  {
    match s.coordinator
    case Handling(bytes) => if |bytes| < SAMPLE_SIZE { Longer(bytes, s.shared.input[|bytes|]); }
    case _ =>
  }

  lemma HostMoves<M>(law: Law<M>, s: State<M>)
    requires Base(law, s) && s.host != Resting
    requires s.host == Spinning ==> s.coordinator == Waiting && s.handled == s.shared.inSeq
    ensures HostStep(s) != s
  {
    match s.host
    case Collecting(got) => if |got| < ANSWER_SIZE { Longer(got, s.shared.answer[|got|]); }
    case _ =>
  }

  /** And some thread can always do something. */
  lemma SomeThreadMoves<M>(law: Law<M>, s: State<M>) returns (a: Action)
    requires Base(law, s) && UnderWay(s)
    ensures !a.Sends? && Step(law, true, s, a) != s
  {
    if !ControllerWaits(s) {
      ControllerMoves(law, s);
      a := ControllerRuns;
    } else if s.host == Spinning && (s.coordinator != Waiting || s.handled != s.shared.inSeq) {
      CoordinatorMoves(law, s);
      a := CoordinatorRuns;
    } else {
      HostMoves(law, s);
      a := HostRuns;
    }
  }

  lemma StepDescends<M>(law: Law<M>, s: State<M>, a: Action)
    requires Base(law, s) && UnderWay(s)
    ensures Nearer(law, s, Step(law, true, s, a))
  {
    match a
    case Sends(_) =>
    case HostRuns => HostDescends(law, s);
    case CoordinatorRuns => if ControllerWaits(s) { CoordinatorDescends(law, s); }
    case ControllerRuns => ControllerDescends(law, s);
  }

  /** How an exchange that is over ended. */
  predicate Ended<M>(law: Law<M>, s: State<M>) {
    |s.sent| > 0 &&
    if law.decodable(s.sent[|s.sent| - 1]) then s.host == Resting && |s.results| == |s.sent|
    else s.coordinator == Dead && s.host == Spinning
  }

  lemma EndsWell<M>(law: Law<M>, t: State<M>)
    requires Base(law, t) && !UnderWay(t) && |t.sent| > 0
    ensures Ended(law, t)
  {
  }

  lemma SomethingLeft<M>(law: Law<M>, s: State<M>)
    requires Base(law, s) && UnderWay(s)
    ensures Remaining(law, s) > 0 && |s.sent| > 0
  {
  }

  // ---- Every schedule that goes on -----------------------------------------------------------

  function From<M>(law: Law<M>, s: State<M>, more: seq<Action>): (r: State<M>)
    requires Shaped(s)
    ensures Shaped(r)
    decreases |more|
  {
    if more == [] then s else From(law, Step(law, true, s, more[0]), more[1..])
  }

  /** How many of the steps change something. */
  function Effective<M(==)>(law: Law<M>, s: State<M>, more: seq<Action>): nat
    requires Shaped(s)
    decreases |more|
  {
    if more == [] then 0
    else
      var t := Step(law, true, s, more[0]);
      (if t == s then 0 else 1) + Effective(law, t, more[1..])
  }

  lemma {:induction false} RunFrom<M>(law: Law<M>, schedule: seq<Action>, more: seq<Action>)
    ensures Run(law, true, schedule + more) == From(law, Run(law, true, schedule), more)
    decreases |more|
  {
    FirstOff(schedule, more);
    if more != [] {
      RunSnoc(law, true, schedule, more[0]);
      RunFrom(law, schedule + [more[0]], more[1..]);
    }
  }

  lemma FirstOff<T>(a: seq<T>, b: seq<T>)
    ensures if b == [] then a + b == a else a + b == a + [b[0]] + b[1..]
  {
  }

  /** After some steps: the exchange goes on, and each effective one has brought it nearer. */
  predicate GoneDown<M(==)>(law: Law<M>, s: State<M>, t: State<M>, steps: nat) {
    UnderWay(t) && t.sent == s.sent && Remaining(law, t) + steps <= Remaining(law, s)
  }

  /** The exchange that was under way has ended. */
  predicate IsOver<M(==)>(law: Law<M>, s: State<M>, t: State<M>) {
    Ended(law, t) && t.sent == s.sent
  }

  lemma OneStep<M>(law: Law<M>, s: State<M>, t: State<M>, a: Action)
    requires Inv(law, s) && UnderWay(s) && t == Step(law, true, s, a)
    ensures Inv(law, t) && (IsOver(law, s, t) || GoneDown(law, s, t, if t == s then 0 else 1))
  {
    StepKeeps(law, s, a);
    StepDescends(law, s, a);
    SomethingLeft(law, s);
    if !UnderWay(t) { EndsWell(law, t); }
  }

  lemma {:induction false} FromKeeps<M>(law: Law<M>, s: State<M>, more: seq<Action>)
    requires Inv(law, s)
    ensures Inv(law, From(law, s, more))
    decreases |more|
  {
    if more != [] {
      StepKeeps(law, s, more[0]);
      FromKeeps(law, Step(law, true, s, more[0]), more[1..]);
    }
  }

  /** Either the exchange ends within these steps, or it goes on. */
  ghost predicate Outcome<M>(law: Law<M>, s: State<M>, more: seq<Action>, ended: bool, k: nat)
    requires Shaped(s)
  {
    k <= |more| &&
    if ended then IsOver(law, s, From(law, s, more[..k]))
    else GoneDown(law, s, From(law, s, more), Effective(law, s, more))
  }

  lemma OutcomeBehind<M>(law: Law<M>, s: State<M>, t: State<M>, more: seq<Action>, ended: bool, k: nat)
    requires Shaped(s) && Shaped(t) && more != [] && t == Step(law, true, s, more[0])
    requires GoneDown(law, s, t, if t == s then 0 else 1) && Outcome(law, t, more[1..], ended, k)
    ensures Outcome(law, s, more, ended, k + 1) || (!ended && Outcome(law, s, more, ended, 0))
  {
    if ended { assert more[..k + 1][1..] == more[1..][..k]; }
  }

  lemma OutcomeHere<M>(law: Law<M>, s: State<M>, t: State<M>, more: seq<Action>)
    requires Shaped(s) && Shaped(t) && more != [] && t == Step(law, true, s, more[0]) && IsOver(law, s, t)
    ensures Outcome(law, s, more, true, 1)
  {
    assert more[..1][1..] == [];
  }

  lemma {:induction false} GoesDown<M>(law: Law<M>, s: State<M>, more: seq<Action>) returns (ended: bool, k: nat)
    requires Inv(law, s) && UnderWay(s)
    ensures Outcome(law, s, more, ended, k)
    decreases |more|
  {
    ended, k := false, 0;
    if more != [] {
      var t := Step(law, true, s, more[0]);
      OneStep(law, s, t, more[0]);
      if IsOver(law, s, t) {
        OutcomeHere(law, s, t, more);
        ended, k := true, 1;
      } else {
        ended, k := GoesDown(law, t, more[1..]);
        OutcomeBehind(law, s, t, more, ended, k);
        k := if ended then k + 1 else 0;
      }
    }
  }

  /** From every reachable state, every schedule in which enough steps change something brings the
      exchange under way to its end: answered, if its input decodes, and only then. */
  lemma EveryScheduleEnds<M>(law: Law<M>, schedule: seq<Action>, more: seq<Action>) returns (k: nat)
    requires UnderWay(Run(law, true, schedule))
    requires Effective(law, Run(law, true, schedule), more) >= Remaining(law, Run(law, true, schedule))
    ensures k <= |more| && IsOver(law, Run(law, true, schedule), Run(law, true, schedule + more[..k]))
  {
    var s, ended := Run(law, true, schedule), false;
    Reachable(law, schedule);
    ended, k := GoesDown(law, s, more);
    if ended {
      RunFrom(law, schedule, more[..k]);
    } else {
      FromKeeps(law, s, more);
      SomethingLeft(law, From(law, s, more));
      assert false;
    }
  }

  // ---- Every fair schedule -------------------------------------------------------------------

  /** Each of the three gets to take a step, in any order and however often. */
  predicate FairRound(round: seq<Action>) {
    HostRuns in round && CoordinatorRuns in round && ControllerRuns in round
  }

  lemma {:induction false} NothingHappens<M>(law: Law<M>, s: State<M>, more: seq<Action>, a: Action)
    requires Shaped(s) && Effective(law, s, more) == 0 && a in more
    ensures Step(law, true, s, a) == s
    decreases |more|
  {
    if a != more[0] { NothingHappens(law, s, more[1..], a); }
  }

  lemma RoundMoves<M>(law: Law<M>, s: State<M>, round: seq<Action>)
    requires Base(law, s) && UnderWay(s) && FairRound(round)
    ensures Effective(law, s, round) > 0
  {
    var a := SomeThreadMoves(law, s);
    if Effective(law, s, round) == 0 { NothingHappens(law, s, round, a); }
  }

  function Flatten(rounds: seq<seq<Action>>): seq<Action> {
    if rounds == [] then [] else rounds[0] + Flatten(rounds[1..])
  }

  lemma {:induction false} FromConcat<M>(law: Law<M>, s: State<M>, a: seq<Action>, b: seq<Action>)
    requires Shaped(s)
    ensures From(law, s, a + b) == From(law, From(law, s, a), b)
    decreases |a|
  {
    if a == [] {
      assert a + b == b;
    } else {
      assert (a + b)[1..] == a[1..] + b;
      FromConcat(law, Step(law, true, s, a[0]), a[1..], b);
    }
  }

  lemma TakeFirst(a: seq<Action>, b: seq<Action>, k: nat)
    ensures k <= |a| ==> (a + b)[..k] == a[..k]
    ensures k <= |b| ==> (a + b)[..|a| + k] == a + b[..k]
  {
  }

  lemma OneRound<M>(law: Law<M>, s: State<M>, round: seq<Action>)
    requires Inv(law, s) && UnderWay(s) && FairRound(round)
    ensures Inv(law, From(law, s, round))
    ensures EndsWithin(law, s, round) || GoneDown(law, s, From(law, s, round), 1)
  {
    RoundMoves(law, s, round);
    FromKeeps(law, s, round);
    var ended, k := GoesDown(law, s, round);
  }

  lemma {:induction false} FairFrom<M>(law: Law<M>, s: State<M>, rounds: seq<seq<Action>>)
    requires Inv(law, s) && UnderWay(s)
    requires |rounds| >= Remaining(law, s) && forall r :: r in rounds ==> FairRound(r)
    ensures EndsWithin(law, s, Flatten(rounds))
    decreases |rounds|
  {
    SomethingLeft(law, s);
    var round, rest := rounds[0], rounds[1..];
    assert round in rounds && forall r :: r in rest ==> r in rounds;
    OneRound(law, s, round);
    if EndsWithin(law, s, round) {
      EndsBefore(law, s, round, Flatten(rest));
    } else {
      FairFrom(law, From(law, s, round), rest);
      EndsAfter(law, s, round, Flatten(rest));
    }
  }

  ghost predicate EndsWithin<M>(law: Law<M>, s: State<M>, more: seq<Action>)
    requires Shaped(s)
  {
    exists k: nat :: k <= |more| && IsOver(law, s, From(law, s, more[..k]))
  }

  lemma EndsBefore<M>(law: Law<M>, s: State<M>, a: seq<Action>, b: seq<Action>)
    requires Shaped(s) && EndsWithin(law, s, a)
    ensures EndsWithin(law, s, a + b)
  {
    var k: nat :| k <= |a| && IsOver(law, s, From(law, s, a[..k]));
    TakeFirst(a, b, k);
  }

  lemma EndsAfter<M>(law: Law<M>, s: State<M>, a: seq<Action>, b: seq<Action>)
    requires Shaped(s) && From(law, s, a).sent == s.sent && EndsWithin(law, From(law, s, a), b)
    ensures EndsWithin(law, s, a + b)
  {
    var t := From(law, s, a);
    var k: nat :| k <= |b| && IsOver(law, t, From(law, t, b[..k]));
    TakeFirst(a, b, k);
    FromConcat(law, s, a, b[..k]);
    assert IsOver(law, s, From(law, s, (a + b)[..|a| + k]));
  }

  /** Whatever the order of steps within the rounds: after at most Remaining rounds the exchange has
      ended. */
  lemma FairScheduleEnds<M>(law: Law<M>, schedule: seq<Action>, rounds: seq<seq<Action>>) returns (k: nat)
    requires UnderWay(Run(law, true, schedule))
    requires |rounds| >= Remaining(law, Run(law, true, schedule)) && forall r :: r in rounds ==> FairRound(r)
    ensures k <= |Flatten(rounds)|
    ensures IsOver(law, Run(law, true, schedule), Run(law, true, schedule + Flatten(rounds)[..k]))
  {
    Reachable(law, schedule);
    var s := Run(law, true, schedule);
    FairFrom(law, s, rounds);
    k :| k <= |Flatten(rounds)| && IsOver(law, s, From(law, s, Flatten(rounds)[..k]));
    RunFrom(law, schedule, Flatten(rounds)[..k]);
  }

  /** The whole of an exchange: a step for every byte in and out, one for every controller tick, and
      a fixed number more. */
  lemma WholeExchange<M>(law: Law<M>, s: State<M>, x: Sample)
    requires Base(law, s) && s.host == Resting
    ensures var target := NewTarget(s.plane.clock, law.stamp(x));
            Remaining(law, Send(s, x)) <=
            2 * 56 + 2 * 96 + 16 + CeilDiv(target - s.plane.clock, 625000)
  {
    TicksExact(s.plane.clock, NewTarget(s.plane.clock, law.stamp(x)));
  }
}
