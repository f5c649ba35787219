/** What the ranking of the threads is good for: without it the lockstep exchange returns what no input
    led to. */
module Ranking {
  import opened Exchange

  function Again<M>(law: Law<M>, s: State<M>, a: Action, n: nat): (r: State<M>)
    requires Shaped(s)
    ensures Shaped(r)
    decreases n
  {
    if n == 0 then s else Again(law, Step(law, false, s, a), a, n - 1)
  }

  lemma {:induction false} CopyIn<M>(law: Law<M>, s: State<M>, x: Sample, k: nat)
    requires Shaped(s) && s.host == Copying(x, k) && k <= SAMPLE_SIZE && s.shared.input[..k] == x[..k]
    ensures Again(law, s, HostRuns, SAMPLE_SIZE - k + 1) ==
            s.(shared := s.shared.(input := x), host := Posting(x))
    decreases SAMPLE_SIZE - k
  {
    var r := HostStep(s);
    if k < SAMPLE_SIZE {
      assert r.shared.input[..k + 1] == s.shared.input[..k] + [x[k]] == x[..k + 1];
      CopyIn(law, r, x, k + 1);
    } else {
      assert s.shared.input[..SAMPLE_SIZE] == s.shared.input && x[..SAMPLE_SIZE] == x;
      assert Again(law, s, HostRuns, 1) == Again(law, r, HostRuns, 0);
    }
  }

  lemma {:induction false} Handle<M>(law: Law<M>, s: State<M>, x: Sample, k: nat)
    requires Shaped(s) && s.shared.input == x && k <= SAMPLE_SIZE && s.coordinator == Handling(x[..k])
    requires law.decodable(x)
    ensures Again(law, s, CoordinatorRuns, SAMPLE_SIZE - k + 1) == s.(coordinator := Publishing(x))
    decreases SAMPLE_SIZE - k
  {
    var r := CoordinatorStep(law, s);
    if k < SAMPLE_SIZE {
      assert x[..k + 1] == x[..k] + [x[k]];
      Handle(law, r, x, k + 1);
    } else {
      assert x[..SAMPLE_SIZE] == x;
      assert Again(law, s, CoordinatorRuns, 1) == Again(law, r, CoordinatorRuns, 0);
    }
  }

  lemma {:induction false} CopyOut<M>(law: Law<M>, s: State<M>, b: Blob, k: nat)
    requires Shaped(s) && s.coordinator == Answering(b, k) && k <= PWM_SIZE && s.shared.answer[..k] == b[..k]
    ensures Again(law, s, CoordinatorRuns, PWM_SIZE - k + 1) ==
            s.(shared := s.shared.(answer := Overlay(b, s.shared.answer)), coordinator := Responding)
    decreases PWM_SIZE - k
  {
    var r := CoordinatorStep(law, s);
    if k < PWM_SIZE {
      OneMore(s.shared.answer, b, k);
      CopyOut(law, r, b, k + 1);
    } else {
      AllCopied(s.shared.answer, b);
      assert Again(law, s, CoordinatorRuns, 1) == Again(law, r, CoordinatorRuns, 0);
    }
  }

  lemma {:induction false} Collect<M>(law: Law<M>, s: State<M>, k: nat)
    requires Shaped(s) && k <= ANSWER_SIZE && s.host == Collecting(s.shared.answer[..k])
    ensures Again(law, s, HostRuns, ANSWER_SIZE - k + 1) ==
            s.(host := Resting, results := s.results + [s.shared.answer])
    decreases ANSWER_SIZE - k
  {
    var r := HostStep(s);
    if k < ANSWER_SIZE {
      assert s.shared.answer[..k + 1] == s.shared.answer[..k] + [s.shared.answer[k]];
      Collect(law, r, k + 1);
    } else {
      assert s.shared.answer[..ANSWER_SIZE] == s.shared.answer;
      assert Again(law, s, HostRuns, 1) == Again(law, r, HostRuns, 0);
    }
  }

  lemma {:induction false} RunAgain<M>(law: Law<M>, schedule: seq<Action>, a: Action, n: nat)
      returns (longer: seq<Action>)
    ensures Run(law, false, longer) == Again(law, Run(law, false, schedule), a, n)
    decreases n
  {
    if n == 0 {
      longer := schedule;
    } else {
      RunSnoc(law, false, schedule, a);
      longer := RunAgain(law, schedule + [a], a, n - 1);
    }
  }

  /** The host's half of the first exchange. */
  lemma FirstInput<M>(law: Law<M>, x: Sample) returns (schedule: seq<Action>)
    ensures Run(law, false, schedule) ==
            Init(law).(controller := Asking, motorGen := 1, sent := [x], seqNo := 1, host := Spinning,
                       shared := Shared(x, 1, 0, Zeros(ANSWER_SIZE)))
  {
    RunSnoc(law, false, [], ControllerRuns);
    RunSnoc(law, false, [] + [ControllerRuns], Sends(x));
    schedule := [] + [ControllerRuns] + [Sends(x)];
    CopyIn(law, Run(law, false, schedule), x, 0);
    schedule := RunAgain(law, schedule, HostRuns, SAMPLE_SIZE + 1);
    RunSnoc(law, false, schedule, HostRuns);
    schedule := schedule + [HostRuns];
  }

  lemma PublishEarly<M>(law: Law<M>, before: seq<Action>, x: Sample) returns (schedule: seq<Action>)
    requires var s := Run(law, false, before);
             s.coordinator == Publishing(x) && s.motorGen == 1 && s.motorSeen == s.flights == s.flightSeen == 0
    ensures var s := Run(law, false, before);
            Run(law, false, schedule) ==
            s.(generation := s.generation + 1, latest := x, sem := 1, motorSeen := 1,
               coordinator := Answering(s.motor, 0))
  {
    assert Run(law, false, before).motor + [] == Run(law, false, before).motor;
    RunSnoc(law, false, before, CoordinatorRuns);
    schedule := before + [CoordinatorRuns];
    RunSnoc(law, false, schedule, CoordinatorRuns);
    schedule := schedule + [CoordinatorRuns];
    RunSnoc(law, false, schedule, CoordinatorRuns);
    schedule := schedule + [CoordinatorRuns];
  }

  /** The coordinator takes the input and looks for motor output before the controller ran. */
  lemma EarlyLook<M>(law: Law<M>, before: seq<Action>, x: Sample) returns (schedule: seq<Action>)
    requires law.decodable(x)
    requires var s := Run(law, false, before);
             s.coordinator == Waiting && s.handled != s.shared.inSeq && s.shared.input == x &&
             s.motorGen == 1 && s.motorSeen == s.flights == s.flightSeen == 0
    ensures var s := Run(law, false, before);
            Run(law, false, schedule) ==
            s.(handled := s.shared.inSeq, generation := s.generation + 1, latest := x, sem := 1,
               motorSeen := 1, coordinator := Answering(s.motor, 0))
  {
    RunSnoc(law, false, before, CoordinatorRuns);
    schedule := before + [CoordinatorRuns];
    Handle(law, Run(law, false, schedule), x, 0);
    schedule := RunAgain(law, schedule, CoordinatorRuns, SAMPLE_SIZE + 1);
    schedule := PublishEarly(law, schedule, x);
  }

  lemma DeliverAnswer<M>(law: Law<M>, before: seq<Action>, b: Blob) returns (schedule: seq<Action>)
    requires var s := Run(law, false, before);
             s.coordinator == Answering(b, 0) && s.host == Spinning && s.handled == s.seqNo
    ensures Run(law, false, schedule).results ==
            Run(law, false, before).results + [Overlay(b, Run(law, false, before).shared.answer)]
    ensures Run(law, false, schedule).sent == Run(law, false, before).sent
  {
    schedule := PutAnswer(law, before, b);
    schedule := TakeAnswer(law, schedule);
  }

  lemma PutAnswer<M>(law: Law<M>, before: seq<Action>, b: Blob) returns (schedule: seq<Action>)
    requires var s := Run(law, false, before);
             s.coordinator == Answering(b, 0) && s.host == Spinning && s.handled == s.seqNo
    ensures var s, r := Run(law, false, before), Run(law, false, schedule);
            r.host == Collecting([]) && r.shared.answer == Overlay(b, s.shared.answer) &&
            r.results == s.results && r.sent == s.sent
  {
    CopyOut(law, Run(law, false, before), b, 0);
    schedule := RunAgain(law, before, CoordinatorRuns, PWM_SIZE + 1);
    RunSnoc(law, false, schedule, CoordinatorRuns);
    schedule := schedule + [CoordinatorRuns];
    RunSnoc(law, false, schedule, HostRuns);
    schedule := schedule + [HostRuns];
  }

  lemma TakeAnswer<M>(law: Law<M>, before: seq<Action>) returns (schedule: seq<Action>)
    requires Run(law, false, before).host == Collecting([])
    ensures var s, r := Run(law, false, before), Run(law, false, schedule);
            r.results == s.results + [s.shared.answer] && r.sent == s.sent
  {
    assert Run(law, false, before).shared.answer[..0] == [];
    Collect(law, Run(law, false, before), 0);
    schedule := RunAgain(law, before, HostRuns, ANSWER_SIZE + 1);
  }

  /** Were the coordinator allowed to run ahead of the controller, the first exchange could return
      the idle command published at boot, whatever its input, and no flight state. */
  lemma UnrankedReturnsIdle<M>(law: Law<M>, x: Sample) returns (schedule: seq<Action>)
    requires law.decodable(x)
    ensures Run(law, false, schedule).sent == [x]
    ensures Run(law, false, schedule).results == [law.idle + Zeros(HEALTH_SIZE)]
  {
    schedule := FirstInput(law, x);
    schedule := EarlyLook(law, schedule, x);
    schedule := DeliverAnswer(law, schedule, law.idle);
    assert Zeros(ANSWER_SIZE)[PWM_SIZE..] == Zeros(HEALTH_SIZE);
  }

  /** Every exchange so far has returned the answer of its own input. */
  ghost predicate OwnAnswers<M>(law: Law<M>, s: State<M>) {
    |s.results| <= |s.sent| && forall k :: 0 <= k < |s.results| ==> IsAnswer(law, s.sent, k, s.results[k])
  }

  /** For every law under which some input leads to anything but the idle command, the exchanges return
      the answers of their own inputs under all schedules if and only if the threads are ranked. */
  lemma RankedExactly<M>(law: Law<M>, x: Sample, ranked: bool)
    requires law.decodable(x) && law.output(After(law, [x]).memory) != law.idle
    ensures ranked <==> forall schedule :: OwnAnswers(law, Run(law, ranked, schedule))
  {
    if ranked {
      forall schedule ensures OwnAnswers(law, Run(law, true, schedule)) {
        ExchangeReturnsItsCommand(law, schedule);
      }
    } else {
      var schedule := UnrankedReturnsIdle(law, x);
      IdleIsNotOwn(law, x, Run(law, false, schedule));
    }
  }

  lemma IdleIsNotOwn<M>(law: Law<M>, x: Sample, s: State<M>)
    requires s.sent == [x] && s.results == [law.idle + Zeros(HEALTH_SIZE)]
    requires law.output(After(law, [x]).memory) != law.idle
    ensures !OwnAnswers(law, s)
  {
    assert s.results[0][..PWM_SIZE] == law.idle;
    assert [x][..1] == [x];
  }
}
