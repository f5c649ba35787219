/** The lockstep exchange: a host outside the firmware, a coordinator thread and the controller
    thread, which outranks it. Payloads are copied byte by byte, and the three take their steps in
    any order the ranking allows. */
module Exchange {
  import opened Bytes
  import opened Clock

  const SAMPLE_SIZE := 56
  const PWM_SIZE := 48
  const HEALTH_SIZE := 48
  /** Motor outputs, and right behind them the vehicle health: what the host takes out of an answer. */
  const ANSWER_SIZE := PWM_SIZE + HEALTH_SIZE
  const SEQUENCE_RANGE := 0x1_0000_0000

  type Sample = s: seq<byte> | |s| == SAMPLE_SIZE witness seq(SAMPLE_SIZE, _ => 0)
  type Blob = s: seq<byte> | |s| == PWM_SIZE witness seq(PWM_SIZE, _ => 0)

  /** What the controller computes; the exchange does not look inside it. */
  datatype Law<!M> = Law(
    start: M, idle: Blob, decodable: Sample -> bool, stamp: Sample -> nat,
    tick: (M, Sample, nat) -> M, output: M -> Blob, health: M -> Blob)

  // ---- The reference: one input after another, nobody else about ---------------------------

  datatype Plane<M> = Plane(clock: nat, memory: M)

  function OneTick<M>(law: Law<M>, p: Plane<M>, sample: Sample, target: nat): Plane<M>
    requires p.clock < target
  {
    var next := NextTick(p.clock, target);
    Plane(next, law.tick(p.memory, sample, next - p.clock))
  }

  function RunTicks<M>(law: Law<M>, p: Plane<M>, sample: Sample, target: nat): Plane<M>
    decreases if p.clock < target then target - p.clock else 0
  {
    if p.clock >= target then p else RunTicks(law, OneTick(law, p, sample, target), sample, target)
  }

  function After<M>(law: Law<M>, inputs: seq<Sample>): Plane<M> {
    if inputs == [] then Plane(0, law.start)
    else
      var p := After(law, inputs[..|inputs| - 1]);
      var x := inputs[|inputs| - 1];
      RunTicks(law, p, x, NewTarget(p.clock, law.stamp(x)))
  }

  /** The motor command computed at the target time of input k. */
  function Expected<M>(law: Law<M>, inputs: seq<Sample>, k: nat): Blob
    requires k < |inputs|
  {
    law.output(After(law, inputs[..k + 1]).memory)
  }

  /** Of the first n inputs the last one that publishes the flight state. */
  function LastFlight(n: nat): nat
    requires n > 0
  {
    n - 1 - (n - 1) % PUBLISH_DIV
  }

  /** The vehicle health computed at the target time of that input. */
  function Health<M>(law: Law<M>, inputs: seq<Sample>, n: nat): Blob
    requires 0 < n <= |inputs|
  {
    law.health(After(law, inputs[..LastFlight(n) + 1]).memory)
  }

  /** What exchange k returns. */
  function Answer<M>(law: Law<M>, inputs: seq<Sample>, k: nat): (a: seq<byte>)
    requires k < |inputs|
    ensures |a| == ANSWER_SIZE
  {
    Expected(law, inputs, k) + Health(law, inputs, k + 1)
  }

  /** How many of the first n inputs publish the flight state. */
  function Flights(n: nat): nat {
    if n == 0 then 0 else Flights(n - 1) + if (n - 1) % PUBLISH_DIV == 0 then 1 else 0
  }

  // ---- State -------------------------------------------------------------------------------

  datatype Shared = Shared(input: seq<byte>, inSeq: nat, respSeq: nat, answer: seq<byte>)

  datatype Host =
    | Resting
    | Copying(sample: Sample, k: nat)
    | Posting(sample: Sample)
    | Spinning
    | Collecting(got: seq<byte>)

  datatype Coordinator =
    | Waiting
    | Handling(bytes: seq<byte>)
    | Publishing(input: Sample)
    | Giving
    | Polling
    | Answering(blob: seq<byte>, k: nat)
    | Responding
    | Dead

  datatype Controller = Booting | Asking | Blocked | Ticking(sample: Sample, target: nat)

  datatype State<M> = State(
    shared: Shared,
    host: Host, seqNo: nat,
    coordinator: Coordinator, handled: nat, motorSeen: nat, flightSeen: nat,
    generation: nat, latest: Sample, sem: nat,
    controller: Controller, seen: nat, plane: Plane<M>,
    motorGen: nat, motor: Blob, countdown: nat, flights: nat, flight: Blob,
    sent: seq<Sample>, results: seq<seq<byte>>)

  function Zeros(n: nat): seq<byte> {
    seq(n, _ => 0)
  }

  function Init<M>(law: Law<M>): State<M> {
    State(Shared(Zeros(SAMPLE_SIZE), 0, 0, Zeros(ANSWER_SIZE)), Resting, 0, Waiting, 0, 0, 0,
          0, Zeros(SAMPLE_SIZE), 0, Booting, 0, Plane(0, law.start), 0, law.idle, 0, 0, Zeros(HEALTH_SIZE), [], [])
  }

  predicate BlobFits<M>(s: State<M>) {
    s.coordinator.Answering? ==> |s.coordinator.blob| == PWM_SIZE || |s.coordinator.blob| == ANSWER_SIZE
  }

  predicate Shaped<M>(s: State<M>) {
    |s.shared.input| == SAMPLE_SIZE && |s.shared.answer| == ANSWER_SIZE && BlobFits(s)
  }

  /** The host's sequence number wraps at 32 bits and never is zero. */
  function NextSequence(n: nat): (r: nat)
    ensures r != n && 0 < r < SEQUENCE_RANGE
    ensures n < 0xFFFF_FFFF ==> r == n + 1
    ensures n == 0xFFFF_FFFF ==> r == 1
  {
    var next := (n + 1) % SEQUENCE_RANGE;
    if next == 0 then 1 else next
  }

  // ---- Steps -------------------------------------------------------------------------------

  function Send<M>(s: State<M>, sample: Sample): State<M> {
    if s.host == Resting then s.(host := Copying(sample, 0), sent := s.sent + [sample]) else s
  }

  function HostStep<M>(s: State<M>): State<M>
    requires Shaped(s)
  {
    match s.host
    case Resting => s
    case Copying(sample, k) =>
      if k < SAMPLE_SIZE then
        s.(shared := s.shared.(input := s.shared.input[k := sample[k]]), host := Copying(sample, k + 1))
      else s.(host := Posting(sample))
    case Posting(_) =>
      var next := NextSequence(s.seqNo);
      s.(seqNo := next, shared := s.shared.(inSeq := next), host := Spinning)
    case Spinning => if s.shared.respSeq == s.seqNo then s.(host := Collecting([])) else s
    case Collecting(got) =>
      if |got| < ANSWER_SIZE then s.(host := Collecting(got + [s.shared.answer[|got|]]))
      else s.(host := Resting, results := s.results + [got])
  }

  /** The flight state goes into the answer when it was published again; the host's copy stays else. */
  function FlightIfUpdated<M>(s: State<M>): seq<byte> {
    if s.flights != 0 && s.flights != s.flightSeen then s.flight else []
  }

  function CoordinatorStep<M>(law: Law<M>, s: State<M>): State<M>
    requires Shaped(s)
  {
    match s.coordinator
    case Waiting =>
      if s.shared.inSeq != s.handled then s.(handled := s.shared.inSeq, coordinator := Handling([])) else s
    case Handling(bytes) =>
      if |bytes| < SAMPLE_SIZE then s.(coordinator := Handling(bytes + [s.shared.input[|bytes|]]))
      else if |bytes| == SAMPLE_SIZE && law.decodable(bytes) then s.(coordinator := Publishing(bytes))
      else s.(coordinator := Dead)
    case Publishing(input) => s.(generation := s.generation + 1, latest := input, coordinator := Giving)
    case Giving => s.(sem := 1, coordinator := Polling)
    case Polling =>
      if s.motorGen != 0 && s.motorGen != s.motorSeen
      then
        s.(motorSeen := s.motorGen, flightSeen := s.flights,
           coordinator := Answering(s.motor + FlightIfUpdated(s), 0))
      else s
    case Answering(blob, k) =>
      if k < |blob| then
        s.(shared := s.shared.(answer := s.shared.answer[k := blob[k]]), coordinator := Answering(blob, k + 1))
      else s.(coordinator := Responding)
    case Responding => s.(shared := s.shared.(respSeq := s.handled), coordinator := Waiting)
    case Dead => s
  }

  /** The last tick of an input: its motor command is published, and every eighth input's state. */
  function AtTarget<M>(law: Law<M>, s: State<M>, p: Plane<M>): State<M> {
    s.(plane := p, controller := Asking, motorGen := s.motorGen + 1, motor := law.output(p.memory),
       countdown := Divided(s.countdown, PUBLISH_DIV), flights := s.flights + if s.countdown == 0 then 1 else 0,
       flight := if s.countdown == 0 then law.health(p.memory) else s.flight)
  }

  function ControllerStep<M>(law: Law<M>, s: State<M>): State<M> {
    match s.controller
    case Booting => s.(motorGen := s.motorGen + 1, motor := law.idle, controller := Asking)
    case Asking =>
      if s.generation != 0 && s.generation != s.seen
      then s.(seen := s.generation, controller := Ticking(s.latest, NewTarget(s.plane.clock, law.stamp(s.latest))))
      else s.(controller := Blocked)
    case Blocked => if s.sem > 0 then s.(sem := 0, controller := Asking) else s
    case Ticking(sample, target) =>
      if s.plane.clock >= target then s.(controller := Asking)
      else
        var p := OneTick(law, s.plane, sample, target);
        if p.clock >= target then AtTarget(law, s, p) else s.(plane := p)
  }

  // ---- Schedules ---------------------------------------------------------------------------

  datatype Action = Sends(sample: Sample) | HostRuns | CoordinatorRuns | ControllerRuns

  /** A thread of lower rank runs only while the controller waits for a semaphore not given. */
  predicate ControllerWaits<M>(s: State<M>) {
    s.controller == Blocked && s.sem == 0
  }

  function Step<M>(law: Law<M>, ranked: bool, s: State<M>, a: Action): (r: State<M>)
    requires Shaped(s)
    ensures Shaped(r)
  {
    match a
    case Sends(sample) => Send(s, sample)
    case HostRuns => HostStep(s)
    case CoordinatorRuns => if ranked && !ControllerWaits(s) then s else CoordinatorStep(law, s)
    case ControllerRuns => ControllerStep(law, s)
  }

  function Run<M>(law: Law<M>, ranked: bool, schedule: seq<Action>): (s: State<M>)
    ensures Shaped(s)
  {
    if schedule == [] then Init(law)
    else Step(law, ranked, Run(law, ranked, schedule[..|schedule| - 1]), schedule[|schedule| - 1])
  }

  lemma RunSnoc<M>(law: Law<M>, ranked: bool, schedule: seq<Action>, a: Action)
    ensures Run(law, ranked, schedule + [a]) == Step(law, ranked, Run(law, ranked, schedule), a)
  {
    assert (schedule + [a])[..|schedule|] == schedule;
  }

  // ---- What every ranked schedule keeps ----------------------------------------------------

  /** Inputs the controller is through with. */
  function Completed<M>(s: State<M>): nat {
    if s.controller.Ticking? && s.seen > 0 then s.seen - 1 else s.seen
  }

  /** The motor generation the coordinator has seen after n exchanges; the one published at boot is
      the first. */
  function MotorSeen(n: nat): nat {
    if n == 0 then 0 else n + 1
  }

  predicate StoreInv<M>(s: State<M>) {
    s.seen <= s.generation <= |s.sent| && s.sem <= 1 &&
    (s.generation > 0 ==> s.latest == s.sent[s.generation - 1]) &&
    (s.sem == 1 ==> s.controller == Blocked && s.seen < s.generation)
  }

  ghost predicate ControllerInv<M>(law: Law<M>, s: State<M>)
    requires s.seen <= |s.sent|
  {
    s.motorGen == (if s.controller == Booting then 0 else Completed(s) + 1) &&
    s.countdown == Countdown(Completed(s), PUBLISH_DIV) && s.flights == Flights(Completed(s)) &&
    (s.controller == Booting ==> s.seen == 0 && s.generation == 0) &&
    (s.controller.Ticking? ==> s.seen > 0) &&
    if s.controller.Ticking? then
      s.controller.sample == s.sent[s.seen - 1] && s.plane.clock < s.controller.target &&
      RunTicks(law, s.plane, s.controller.sample, s.controller.target) == After(law, s.sent[..s.seen])
    else
      s.plane == After(law, s.sent[..s.seen]) &&
      (s.seen > 0 ==> s.motor == law.output(s.plane.memory))
  }

  predicate Quiet<M>(s: State<M>) {
    ControllerWaits(s) && s.seen == s.generation
  }

  ghost predicate CoordinatorInv<M>(law: Law<M>, s: State<M>)
    requires Shaped(s) && s.seen <= s.generation <= |s.sent|
  {
    var r := |s.results|;
    (s.coordinator != Waiting ==> s.host == Spinning && s.handled == s.shared.inSeq && |s.sent| == r + 1) &&
    match s.coordinator
    case Waiting =>
      s.seen == s.generation && !s.controller.Ticking? && s.sem == 0 && s.motorSeen == MotorSeen(s.generation) &&
      (s.handled != s.shared.inSeq ==> s.host == Spinning && s.generation == r)
    case Handling(bytes) =>
      Quiet(s) && s.generation == r && s.motorSeen == MotorSeen(r) &&
      |bytes| <= SAMPLE_SIZE && bytes == s.shared.input[..|bytes|]
    case Publishing(input) =>
      Quiet(s) && s.generation == r && s.motorSeen == MotorSeen(r) && input == s.sent[r] &&
      law.decodable(input)
    case Giving => ControllerWaits(s) && s.generation == r + 1 && s.seen == r && s.motorSeen == MotorSeen(r)
    case Polling => s.generation == r + 1 && s.motorSeen == MotorSeen(r) &&
                    (s.seen == r && s.controller == Blocked ==> s.sem == 1) && r <= s.seen &&
                    (s.controller.Ticking? ==> s.seen == r + 1)
    case Answering(blob, k) =>
      Quiet(s) && s.generation == r + 1 && s.motorSeen == MotorSeen(r + 1) &&
      k <= |blob| && s.shared.answer[..k] == blob[..k] && Overlay(blob, s.shared.answer) == Answer(law, s.sent, r)
    case Responding =>
      Quiet(s) && s.generation == r + 1 && s.motorSeen == MotorSeen(r + 1) &&
      s.shared.answer == Answer(law, s.sent, r)
    case Dead => Quiet(s) && s.generation == r && !law.decodable(s.sent[r])
  }

  /** A copied answer over what was there before. */
  function Overlay(blob: seq<byte>, answer: seq<byte>): seq<byte> {
    if |blob| <= |answer| then blob + answer[|blob|..] else blob
  }

  /** Inputs whose answer the coordinator has taken. */
  function Taken<M>(s: State<M>): nat {
    if (s.coordinator == Giving || s.coordinator == Polling) && s.generation > 0 then s.generation - 1 else s.generation
  }

  /** The health is that of the first n inputs, if there are any. */
  ghost predicate IsHealth<M>(law: Law<M>, inputs: seq<Sample>, n: nat, health: seq<byte>) {
    0 < n <= |inputs| ==> health == Health(law, inputs, n)
  }

  function HealthPart(answer: seq<byte>): seq<byte> {
    if |answer| >= PWM_SIZE then answer[PWM_SIZE..] else []
  }

  /** The flight state last published, the one last taken, and the one the host would see. */
  ghost predicate FlightInv<M>(law: Law<M>, s: State<M>) {
    IsHealth(law, s.sent, Completed(s), s.flight) && s.flightSeen == Flights(Taken(s)) &&
    (s.coordinator.Answering? || IsHealth(law, s.sent, Taken(s), HealthPart(s.shared.answer)))
  }

  predicate Settled<M>(s: State<M>) {
    s.coordinator == Waiting && s.handled == s.shared.inSeq == s.shared.respSeq == s.seqNo
  }

  ghost predicate HostInv<M>(law: Law<M>, s: State<M>)
    requires Shaped(s)
  {
    var r := |s.results|;
    s.shared.inSeq == s.seqNo &&
    if s.host == Resting then Settled(s) && |s.sent| == r == s.generation
    else
      |s.sent| == r + 1 &&
      match s.host
      case Copying(x, k) =>
        Settled(s) && s.generation == r && s.sent[r] == x && k <= SAMPLE_SIZE && s.shared.input[..k] == x[..k]
      case Posting(x) => Settled(s) && s.generation == r && s.sent[r] == x == s.shared.input
      case Spinning =>
        if s.coordinator == Waiting && s.handled == s.shared.inSeq
        then s.shared.respSeq == s.seqNo && s.generation == r + 1 && s.shared.answer == Answer(law, s.sent, r)
        else s.shared.respSeq != s.seqNo && s.shared.input == s.sent[r]
      case Collecting(got) =>
        Settled(s) && s.generation == r + 1 && s.shared.answer == Answer(law, s.sent, r) &&
        |got| <= ANSWER_SIZE && got == s.shared.answer[..|got|]
      case _ => true
  }

  ghost predicate ResultsInv<M>(law: Law<M>, s: State<M>) {
    |s.results| <= |s.sent| && (s.generation > 0 ==> law.decodable(s.latest)) &&
    forall i :: 0 <= i < |s.results| ==> s.results[i] == Answer(law, s.sent, i)
  }

  ghost predicate Base<M>(law: Law<M>, s: State<M>) {
    Shaped(s) && StoreInv(s) && ControllerInv(law, s) && CoordinatorInv(law, s) && HostInv(law, s) &&
    ResultsInv(law, s)
  }

  ghost predicate Inv<M>(law: Law<M>, s: State<M>) {
    Base(law, s) && FlightInv(law, s)
  }

  lemma InitInv<M>(law: Law<M>)
    ensures Inv(law, Init(law))
  {
  }

  // ---- Host --------------------------------------------------------------------------------

  lemma SameAnswer<M>(law: Law<M>, a: seq<Sample>, b: seq<Sample>, i: nat)
    requires i < |a| && a <= b
    ensures Answer(law, b, i) == Answer(law, a, i) && Health(law, b, i + 1) == Health(law, a, i + 1)
  {
    assert b[..i + 1] == a[..i + 1];
    assert b[..LastFlight(i + 1) + 1] == a[..LastFlight(i + 1) + 1];
  }

  lemma SendKeeps<M>(law: Law<M>, s: State<M>, sample: Sample)
    requires Base(law, s)
    ensures Base(law, Send(s, sample))
  {
    if s.host == Resting {
      var r := Send(s, sample);
      assert r.sent[..s.seen] == s.sent[..s.seen];
      forall i | 0 <= i < |s.results| ensures r.results[i] == Answer(law, r.sent, i) {
        SameAnswer(law, s.sent, r.sent, i);
      }
    }
  }

  lemma CopyInKeeps<M>(law: Law<M>, s: State<M>)
    requires Base(law, s) && s.host.Copying?
    ensures Base(law, HostStep(s))
  {
    var x, k := s.host.sample, s.host.k;
    var r := HostStep(s);
    if k < SAMPLE_SIZE {
      assert r.shared.input[..k + 1] == s.shared.input[..k] + [x[k]];
      assert x[..k + 1] == x[..k] + [x[k]];
    } else {
      assert s.shared.input[..SAMPLE_SIZE] == s.shared.input && x[..SAMPLE_SIZE] == x;
    }
  }

  lemma CollectKeeps<M>(law: Law<M>, s: State<M>)
    requires Base(law, s) && s.host.Collecting?
    ensures Base(law, HostStep(s))
  {
    var got := s.host.got;
    if |got| < ANSWER_SIZE {
      OneMoreTaken(s.shared.answer, |got|);
    } else {
      AllTaken(s.shared.answer);
    }
  }

  lemma OneMoreTaken<T>(a: seq<T>, n: nat)
    requires n < |a|
    ensures a[..n + 1] == a[..n] + [a[n]]
  {
  }

  lemma AllTaken<T>(a: seq<T>)
    ensures a[..|a|] == a
  {
  }

  lemma PostKeeps<M>(law: Law<M>, s: State<M>)
    requires Base(law, s) && (s.host.Posting? || s.host.Spinning?)
    ensures Base(law, HostStep(s))
  {
  }

  lemma HostKeeps<M>(law: Law<M>, s: State<M>)
    requires Base(law, s)
    ensures Base(law, HostStep(s))
  {
    match s.host
    case Copying(_, _) => CopyInKeeps(law, s);
    case Collecting(_) => CollectKeeps(law, s);
    case Posting(_) => PostKeeps(law, s);
    case Spinning => PostKeeps(law, s);
    case Resting =>
  }

  // ---- Coordinator -------------------------------------------------------------------------

  lemma HandleKeeps<M>(law: Law<M>, s: State<M>)
    requires Base(law, s) && s.coordinator.Handling?
    ensures Base(law, CoordinatorStep(law, s))
  {
    var bytes := s.coordinator.bytes;
    if |bytes| < SAMPLE_SIZE {
      assert s.shared.input[..|bytes| + 1] == s.shared.input[..|bytes|] + [s.shared.input[|bytes|]];
    } else {
      assert s.shared.input[..SAMPLE_SIZE] == s.shared.input;
    }
  }

  lemma OneMore(answer: seq<byte>, blob: seq<byte>, k: nat)
    requires k < |blob| <= |answer| && answer[..k] == blob[..k]
    ensures answer[k := blob[k]][..k + 1] == blob[..k + 1]
    ensures Overlay(blob, answer[k := blob[k]]) == Overlay(blob, answer)
  {
    assert answer[k := blob[k]][..k + 1] == answer[..k] + [blob[k]];
    assert answer[k := blob[k]][|blob|..] == answer[|blob|..];
  }

  lemma AllCopied(answer: seq<byte>, blob: seq<byte>)
    requires |blob| <= |answer| && answer[..|blob|] == blob[..|blob|]
    ensures Overlay(blob, answer) == answer
  {
    assert answer == answer[..|blob|] + answer[|blob|..] && blob[..|blob|] == blob;
  }

  lemma AnswerKeeps<M>(law: Law<M>, s: State<M>)
    requires Base(law, s) && s.coordinator.Answering?
    ensures Base(law, CoordinatorStep(law, s))
  {
    var blob, k := s.coordinator.blob, s.coordinator.k;
    var r := CoordinatorStep(law, s);
    if k < |blob| {
      OneMore(s.shared.answer, blob, k);
    } else {
      AllCopied(s.shared.answer, blob);
    }
  }

  /** When the coordinator looks, the controller has finished the input: what it finds is the
      motor command of that input. */
  lemma PollKeeps<M>(law: Law<M>, s: State<M>)
    requires Inv(law, s) && s.coordinator.Polling? && ControllerWaits(s)
    ensures Base(law, CoordinatorStep(law, s))
  {
    PollFinds(law, s);
    AnswerPut(law, s);
    PollAnswers(law, s);
  }

  /** The motor command of the input, and the flight state with the last answer's health behind it. */
  ghost predicate Found<M>(law: Law<M>, s: State<M>) {
    var r := |s.results|;
    r < |s.sent| && |s.shared.answer| == ANSWER_SIZE && s.motor == Expected(law, s.sent, r) &&
    s.flights == Flights(r + 1) && s.flightSeen == Flights(r) &&
    IsHealth(law, s.sent, r + 1, s.flight) && IsHealth(law, s.sent, r, HealthPart(s.shared.answer))
  }

  lemma PollFinds<M>(law: Law<M>, s: State<M>)
    requires Inv(law, s) && s.coordinator.Polling? && ControllerWaits(s)
    ensures Found(law, s)
  {
    assert s.sent[..|s.results| + 1] == s.sent[..s.seen];
  }

  lemma PollAnswers<M>(law: Law<M>, s: State<M>)
    requires Base(law, s) && s.coordinator.Polling? && ControllerWaits(s) && |s.results| < |s.sent|
    requires Overlay(s.motor + FlightIfUpdated(s), s.shared.answer) == Answer(law, s.sent, |s.results|)
    ensures Base(law, CoordinatorStep(law, s))
  {
  }

  /** The motor command, with the flight state if it is new, over the last answer. */
  lemma AnswerPut<M>(law: Law<M>, s: State<M>)
    requires Found(law, s)
    ensures Overlay(s.motor + FlightIfUpdated(s), s.shared.answer) == Answer(law, s.sent, |s.results|)
  {
    FlightsRise(|s.results|);
    SameFlight(law, s.sent, |s.results|);
    assert s.shared.answer[ANSWER_SIZE..] == [];
  }

  lemma FlightsRise(n: nat)
    ensures Flights(n + 1) > 0
    ensures Flights(n + 1) == Flights(n) <==> n % PUBLISH_DIV != 0
  {
    FlightsCount(n + 1);
  }

  /** Between its publications the flight state is that of the last one. */
  lemma SameFlight<M>(law: Law<M>, inputs: seq<Sample>, n: nat)
    requires n < |inputs|
    ensures n % PUBLISH_DIV == 0 ==> LastFlight(n + 1) == n
    ensures n % PUBLISH_DIV != 0 ==> n > 0 && Health(law, inputs, n + 1) == Health(law, inputs, n)
  {
    if n % PUBLISH_DIV != 0 {
      assert (n - 1) % PUBLISH_DIV == n % PUBLISH_DIV - 1;
    }
  }

  lemma PublishKeeps<M>(law: Law<M>, s: State<M>)
    requires Base(law, s) && (s.coordinator.Publishing? || s.coordinator.Giving?)
    ensures Base(law, CoordinatorStep(law, s))
  {
  }

  lemma TurnKeeps<M>(law: Law<M>, s: State<M>)
    requires Base(law, s) && ControllerWaits(s) && (s.coordinator.Waiting? || s.coordinator.Responding?)
    ensures Base(law, CoordinatorStep(law, s))
  {
  }

  lemma CoordinatorKeeps<M>(law: Law<M>, s: State<M>)
    requires Inv(law, s) && ControllerWaits(s)
    ensures Base(law, CoordinatorStep(law, s))
  {
    match s.coordinator
    case Handling(_) => HandleKeeps(law, s);
    case Answering(_, _) => AnswerKeeps(law, s);
    case Polling => PollKeeps(law, s);
    case Publishing(_) => PublishKeeps(law, s);
    case Giving => PublishKeeps(law, s);
    case Waiting => TurnKeeps(law, s);
    case Responding => TurnKeeps(law, s);
    case Dead =>
  }

  // ---- Controller --------------------------------------------------------------------------

  lemma AskKeeps<M>(law: Law<M>, s: State<M>)
    requires Base(law, s) && s.controller == Asking
    ensures Base(law, ControllerStep(law, s))
  {
    if s.generation != 0 && s.generation != s.seen {
      var inputs := s.sent[..s.generation];
      assert inputs[..|inputs| - 1] == s.sent[..s.seen];
    }
  }

  lemma CountdownIsZero(n: nat)
    ensures Countdown(n, PUBLISH_DIV) == 0 <==> n % PUBLISH_DIV == 0
  {
    ExpiresEveryDivisor(n, PUBLISH_DIV);
  }

  lemma TickKeeps<M>(law: Law<M>, s: State<M>)
    requires Base(law, s) && s.controller.Ticking?
    ensures Base(law, ControllerStep(law, s))
  {
    CountdownIsZero(Completed(s));
    var x, target := s.controller.sample, s.controller.target;
    var p := OneTick(law, s.plane, x, target);
    assert RunTicks(law, s.plane, x, target) == RunTicks(law, p, x, target);
    assert p.clock >= target ==> RunTicks(law, p, x, target) == p;
  }

  lemma ControllerKeeps<M>(law: Law<M>, s: State<M>)
    requires Base(law, s)
    ensures Base(law, ControllerStep(law, s))
  {
    match s.controller
    case Asking => AskKeeps(law, s);
    case Ticking(_, _) => TickKeeps(law, s);
    case _ =>
  }

  // ---- Flight state ------------------------------------------------------------------------

  lemma SendKeepsFlight<M>(law: Law<M>, s: State<M>, sample: Sample)
    requires Inv(law, s)
    ensures FlightInv(law, Send(s, sample))
  {
    var more := s.sent + [sample];
    if Completed(s) > 0 { SameAnswer(law, s.sent, more, Completed(s) - 1); }
    if Taken(s) > 0 { SameAnswer(law, s.sent, more, Taken(s) - 1); }
  }

  lemma HostKeepsFlight<M>(law: Law<M>, s: State<M>)
    requires Inv(law, s)
    ensures FlightInv(law, HostStep(s))
  {
  }

  lemma AnswerKeepsFlight<M>(law: Law<M>, s: State<M>)
    requires Inv(law, s) && s.coordinator.Answering?
    ensures FlightInv(law, CoordinatorStep(law, s))
  {
    if s.coordinator.k >= |s.coordinator.blob| { WholeAnswer(law, s); }
    AnswerFlight(law, s);
  }

  lemma WholeAnswer<M>(law: Law<M>, s: State<M>)
    requires Base(law, s) && s.coordinator.Answering? && s.coordinator.k >= |s.coordinator.blob|
    ensures Taken(s) == |s.results| + 1 && IsHealth(law, s.sent, Taken(s), HealthPart(s.shared.answer))
  {
    AllCopied(s.shared.answer, s.coordinator.blob);
    HealthOfAnswer(law, s.sent, |s.results|, s.shared.answer);
  }

  lemma AnswerFlight<M>(law: Law<M>, s: State<M>)
    requires Shaped(s) && FlightInv(law, s) && s.coordinator.Answering?
    requires s.coordinator.k >= |s.coordinator.blob| ==> IsHealth(law, s.sent, Taken(s), HealthPart(s.shared.answer))
    ensures FlightInv(law, CoordinatorStep(law, s))
  {
  }

  lemma HealthOfAnswer<M>(law: Law<M>, inputs: seq<Sample>, k: nat, answer: seq<byte>)
    requires k < |inputs| && answer == Answer(law, inputs, k)
    ensures HealthPart(answer) == Health(law, inputs, k + 1) && IsHealth(law, inputs, k + 1, HealthPart(answer))
  {
    assert answer[PWM_SIZE..] == Health(law, inputs, k + 1);
  }

  lemma PollKeepsFlight<M>(law: Law<M>, s: State<M>)
    requires Inv(law, s) && ControllerWaits(s) && s.coordinator.Polling?
    ensures FlightInv(law, CoordinatorStep(law, s))
  {
  }

  lemma TurnTakesNone<M>(law: Law<M>, s: State<M>)
    requires Base(law, s) && ControllerWaits(s) && !s.coordinator.Answering? && !s.coordinator.Polling?
    ensures Taken(CoordinatorStep(law, s)) == Taken(s)
  {
  }

  lemma TurnKeepsFlight<M>(law: Law<M>, s: State<M>)
    requires Shaped(s) && FlightInv(law, s) && !s.coordinator.Answering? && !s.coordinator.Polling?
    requires Taken(CoordinatorStep(law, s)) == Taken(s)
    ensures FlightInv(law, CoordinatorStep(law, s))
  {
  }

  lemma CoordinatorKeepsFlight<M>(law: Law<M>, s: State<M>)
    requires Inv(law, s) && ControllerWaits(s)
    ensures FlightInv(law, CoordinatorStep(law, s))
  {
    match s.coordinator
    case Answering(_, _) => AnswerKeepsFlight(law, s);
    case Polling => PollKeepsFlight(law, s);
    case _ => TurnTakesNone(law, s); TurnKeepsFlight(law, s);
  }

  /** The tick at the target publishes the flight state of every eighth input. */
  lemma TickKeepsFlight<M>(law: Law<M>, s: State<M>)
    requires Inv(law, s) && s.controller.Ticking?
    ensures FlightInv(law, ControllerStep(law, s))
  {
    var p := OneTick(law, s.plane, s.controller.sample, s.controller.target);
    if p.clock >= s.controller.target {
      TargetHealth(law, s, p);
      TargetKeepsFlight(law, s, p);
      assert ControllerStep(law, s) == AtTarget(law, s, p);
    } else {
      assert ControllerStep(law, s) == s.(plane := p);
    }
  }

  lemma TargetHealth<M>(law: Law<M>, s: State<M>, p: Plane<M>)
    requires Inv(law, s) && s.controller.Ticking?
    requires p == OneTick(law, s.plane, s.controller.sample, s.controller.target) && p.clock >= s.controller.target
    ensures s.seen > 0
    ensures IsHealth(law, s.sent, s.seen, if s.countdown == 0 then law.health(p.memory) else s.flight)
  {
    CountdownIsZero(Completed(s));
    LastTick(law, s.plane, p, s.controller.sample, s.controller.target);
    NextHealth(law, s.sent, Completed(s), s.flight, p);
  }

  lemma LastTick<M>(law: Law<M>, before: Plane<M>, p: Plane<M>, x: Sample, target: nat)
    requires before.clock < target && p == OneTick(law, before, x, target) && p.clock >= target
    ensures RunTicks(law, before, x, target) == p
  {
    assert RunTicks(law, p, x, target) == p;
  }

  lemma TargetKeepsFlight<M>(law: Law<M>, s: State<M>, p: Plane<M>)
    requires FlightInv(law, s) && s.controller.Ticking? && s.seen > 0
    requires IsHealth(law, s.sent, s.seen, if s.countdown == 0 then law.health(p.memory) else s.flight)
    ensures FlightInv(law, AtTarget(law, s, p))
  {
  }

  lemma NextHealth<M>(law: Law<M>, inputs: seq<Sample>, n: nat, flight: Blob, p: Plane<M>)
    requires n < |inputs| && IsHealth(law, inputs, n, flight) && p == After(law, inputs[..n + 1])
    ensures IsHealth(law, inputs, n + 1, if n % PUBLISH_DIV == 0 then law.health(p.memory) else flight)
  {
    SameFlight(law, inputs, n);
  }

  lemma AskCompletesNone<M>(law: Law<M>, s: State<M>)
    requires Base(law, s) && !s.controller.Ticking?
    ensures Completed(ControllerStep(law, s)) == Completed(s)
  {
  }

  lemma AskKeepsFlight<M>(law: Law<M>, s: State<M>)
    requires FlightInv(law, s) && !s.controller.Ticking? && Completed(ControllerStep(law, s)) == Completed(s)
    ensures FlightInv(law, ControllerStep(law, s))
  {
  }

  lemma ControllerKeepsFlight<M>(law: Law<M>, s: State<M>)
    requires Inv(law, s)
    ensures FlightInv(law, ControllerStep(law, s))
  {
    if s.controller.Ticking? { TickKeepsFlight(law, s); } else { AskCompletesNone(law, s); AskKeepsFlight(law, s); }
  }

  lemma StepKeeps<M>(law: Law<M>, s: State<M>, a: Action)
    requires Inv(law, s)
    ensures Inv(law, Step(law, true, s, a))
  {
    match a
    case Sends(sample) => SendKeeps(law, s, sample); SendKeepsFlight(law, s, sample);
    case HostRuns => HostKeeps(law, s); HostKeepsFlight(law, s);
    case CoordinatorRuns => if ControllerWaits(s) { CoordinatorKeeps(law, s); CoordinatorKeepsFlight(law, s); }
    case ControllerRuns => ControllerKeeps(law, s); ControllerKeepsFlight(law, s);
  }

  lemma {:induction false} Reachable<M>(law: Law<M>, schedule: seq<Action>)
    ensures Inv(law, Run(law, true, schedule))
  {
    if schedule == [] {
      InitInv(law);
    } else {
      var before := schedule[..|schedule| - 1];
      Reachable(law, before);
      StepKeeps(law, Run(law, true, before), schedule[|schedule| - 1]);
    }
  }

  // ---- Main results ------------------------------------------------------------------------

  /** Under every ranked schedule the k-th exchange returns the command computed at the target time
      of input k and the vehicle health computed at that of the last multiple of eight, and at most
      one input is ever under way. */
  lemma ExchangeReturnsItsCommand<M>(law: Law<M>, schedule: seq<Action>)
    ensures var s := Run(law, true, schedule);
            |s.results| <= |s.sent| <= |s.results| + 1 &&
            forall k :: 0 <= k < |s.results| ==> IsAnswer(law, s.sent, k, s.results[k])
  {
    Reachable(law, schedule);
    var s := Run(law, true, schedule);
    forall k | 0 <= k < |s.results| ensures IsAnswer(law, s.sent, k, s.results[k]) {
      AnswerParts(law, s.sent, k);
    }
  }

  lemma AnswerParts<M>(law: Law<M>, inputs: seq<Sample>, k: nat)
    requires k < |inputs|
    ensures IsAnswer(law, inputs, k, Answer(law, inputs, k))
  {
    assert LastFlight(k + 1) == k - k % 8;
  }

  /** Command and health side by side, of the controller's memory after so many inputs. */
  ghost predicate IsAnswer<M>(law: Law<M>, inputs: seq<Sample>, k: nat, a: seq<byte>)
    requires k < |inputs|
  {
    |a| == 96 && a[..48] == law.output(After(law, inputs[..k + 1]).memory) &&
    a[48..] == law.health(After(law, inputs[..k - k % 8 + 1]).memory)
  }

  // ---- Where an input takes the controller -------------------------------------------------

  /** To its time stamp if that lies ahead, else one period on; in the ticks of the clock. */
  lemma InputEndsAtItsStamp<M>(law: Law<M>, inputs: seq<Sample>)
    requires inputs != []
    ensures var p, x := After(law, inputs[..|inputs| - 1]), inputs[|inputs| - 1];
            var clock := if law.stamp(x) > p.clock then law.stamp(x) else p.clock + 625000;
            After(law, inputs) == Plane(clock, Fold(law, p.memory, x, Ticks(p.clock, clock)))
  {
    var p, x := After(law, inputs[..|inputs| - 1]), inputs[|inputs| - 1];
    RunTicksExact(law, p, x, NewTarget(p.clock, law.stamp(x)));
  }

  /** Each stamp is later than those before it, and none is zero. */
  ghost predicate StampsRise<M>(law: Law<M>, inputs: seq<Sample>) {
    (forall i :: 0 <= i < |inputs| ==> law.stamp(inputs[i]) > 0) &&
    forall i, j :: 0 <= i < j < |inputs| ==> law.stamp(inputs[i]) < law.stamp(inputs[j])
  }

  /** With rising stamps the controller's time after an input is that input's stamp. */
  lemma {:induction false} ClockIsStamp<M>(law: Law<M>, inputs: seq<Sample>)
    requires inputs != [] && StampsRise(law, inputs)
    ensures After(law, inputs).clock == law.stamp(inputs[|inputs| - 1])
  {
    var before := inputs[..|inputs| - 1];
    if before != [] {
      ClockIsStamp(law, before);
      assert before[|before| - 1] == inputs[|inputs| - 2];
    }
    InputEndsAtItsStamp(law, inputs);
  }

  /** A controller that only notes what it is handed. */
  ghost predicate Notes(law: Law<seq<(Sample, nat)>>) {
    forall m: seq<(Sample, nat)>, x: Sample, dt: nat :: law.tick(m, x, dt) == m + [(x, dt)]
  }

  /** It has noted, input by input, the sample with the length of each of its ticks. */
  lemma {:induction false} TicksAreHandedOver(law: Law<seq<(Sample, nat)>>, inputs: seq<Sample>)
    requires inputs != [] && Notes(law)
    ensures var p, x := After(law, inputs[..|inputs| - 1]), inputs[|inputs| - 1];
            var dts := Ticks(p.clock, After(law, inputs).clock);
            After(law, inputs).memory == p.memory + seq(|dts|, i requires 0 <= i < |dts| => (x, dts[i]))
  {
    var p, x := After(law, inputs[..|inputs| - 1]), inputs[|inputs| - 1];
    InputEndsAtItsStamp(law, inputs);
    FoldNotes(law, p.memory, x, Ticks(p.clock, After(law, inputs).clock));
  }

  lemma {:induction false} FoldNotes(law: Law<seq<(Sample, nat)>>, m: seq<(Sample, nat)>, x: Sample, dts: seq<nat>)
    requires Notes(law)
    ensures Fold(law, m, x, dts) == m + seq(|dts|, i requires 0 <= i < |dts| => (x, dts[i]))
    decreases |dts|
  {
    if dts != [] { FoldNotes(law, m + [(x, dts[0])], x, dts[1..]); }
  }

  /** From picking an input up until it gives the semaphore, the coordinator has the controller blocked:
      nothing it hands over meanwhile, the RC channels included, changes under a read. */
  lemma ControllerHeld<M>(law: Law<M>, schedule: seq<Action>)
    ensures var s := Run(law, true, schedule);
            s.coordinator.Handling? || s.coordinator.Publishing? || s.coordinator.Giving? ==>
              s.controller == Blocked && ControllerStep(law, s) == s
  {
    Reachable(law, schedule);
  }

  /** One motor publication an input, on its final tick, and one more at boot; one flight state
      every eighth input. */
  lemma OnePublicationPerInput<M>(law: Law<M>, schedule: seq<Action>)
    ensures var s := Run(law, true, schedule);
            s.motorGen == (if s.controller == Booting then 0 else 1 + Completed(s)) &&
            s.flights == (Completed(s) + PUBLISH_DIV - 1) / PUBLISH_DIV &&
            |s.results| <= Completed(s) <= |s.sent|
    ensures var s := Run(law, true, schedule);
            !s.controller.Ticking? ==> s.plane == After(law, s.sent[..Completed(s)])
  {
    Reachable(law, schedule);
    FlightsCount(Completed(Run(law, true, schedule)));
  }

  lemma {:induction false} FlightsCount(n: nat)
    ensures Flights(n) == (n + PUBLISH_DIV - 1) / PUBLISH_DIV
  {
    if n > 0 { FlightsCount(n - 1); }
  }

  function Fold<M>(law: Law<M>, m: M, sample: Sample, dts: seq<nat>): M
    decreases |dts|
  {
    if dts == [] then m else Fold(law, law.tick(m, sample, dts[0]), sample, dts[1..])
  }

  /** An input's ticks end exactly at its target, and their lengths are those of the clock. */
  lemma {:induction false} RunTicksExact<M>(law: Law<M>, p: Plane<M>, sample: Sample, target: nat)
    requires p.clock <= target
    ensures RunTicks(law, p, sample, target) ==
            Plane(target, Fold(law, p.memory, sample, Ticks(p.clock, target)))
    decreases target - p.clock
  {
    if p.clock < target {
      RunTicksExact(law, OneTick(law, p, sample, target), sample, target);
      var next := NextTick(p.clock, target);
      assert Ticks(p.clock, target)[1..] == Ticks(next, target);
    }
  }
}
