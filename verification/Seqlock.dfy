/** The two snapshots guarded by a sequence counter: the latency statistics, whose reader tests the
    counter's parity, and the RC channels, whose reader does not. Words are copied one at a time;
    writer and reader interleave in any order. */
module Seqlock {
  type Words = seq<int>

  datatype Writer = Outside | Inside(next: Words, k: nat)

  datatype Reader =
    | Away
    | Loading(end: nat)                 // top of the loop, with the end value of the pass before
    | Copying(start: nat, end: nat, k: nat)
    | Ending(start: nat)
    | Testing(start: nat, end: nat)

  /** What a call returned: how many publications there were before it, and the counter its last
      pass began with. */
  datatype Returned = Returned(words: Words, since: nat, start: nat)

  /** `published` holds what was there at first and every snapshot written since. */
  datatype State = State(
    sequence: nat, data: Words, writer: Writer,
    reader: Reader, buffer: Words, since: nat,
    published: seq<Words>, returned: seq<Returned>)

  /** Which reader, and whether it is kept from running inside the writer's section. The latency
      statistics have the parity test, and nothing keeps their reader out. The RC channels have none; on
      the boards the input thread that writes them outranks the control loop that reads, and in lockstep
      builds the coordinator writes them while the control loop is blocked (Exchange.ControllerHeld). */
  datatype Lock = Lock(size: nat, parityTest: bool, excluded: bool)

  predicate Shaped(lock: Lock, s: State) {
    |s.data| == lock.size == |s.buffer| && s.published != []
  }

  function Init(first: Words): State {
    State(0, first, Outside, Away, first, 0, [first], [])
  }

  // ---- Steps -------------------------------------------------------------------------------

  function Enter(lock: Lock, s: State, next: Words): State {
    if s.writer == Outside && |next| == lock.size
    then s.(sequence := s.sequence + 1, writer := Inside(next, 0)) else s
  }

  function WriterStep(lock: Lock, s: State): State
    requires Shaped(lock, s)
  {
    match s.writer
    case Outside => s
    case Inside(next, k) =>
      if k < lock.size && k < |next| then s.(data := s.data[k := next[k]], writer := Inside(next, k + 1))
      else s.(sequence := s.sequence + 1, writer := Outside, published := s.published + [next])
  }

  /** A call. What the end variable holds at first is 0 in one reader and indeterminate in the other. */
  function Call(s: State, end: nat): State
    requires s.published != []
  {
    if s.reader == Away then s.(reader := Loading(end), since := |s.published| - 1) else s
  }

  function ReaderStep(lock: Lock, s: State): State
    requires Shaped(lock, s)
  {
    match s.reader
    case Away => s
    case Loading(end) =>
      if s.sequence % 2 != 0 then s.(reader := Testing(s.sequence, end))
      else s.(reader := Copying(s.sequence, end, 0))
    case Copying(start, end, k) =>
      if k < lock.size then s.(buffer := s.buffer[k := s.data[k]], reader := Copying(start, end, k + 1))
      else s.(reader := Ending(start))
    case Ending(start) => s.(reader := Testing(start, s.sequence))
    case Testing(start, end) =>
      if start != end || (lock.parityTest && end % 2 != 0) then s.(reader := Loading(end))
      else s.(reader := Away, returned := s.returned + [Returned(s.buffer, s.since, start)])
  }

  datatype Action = Writes(next: Words) | WriterRuns | Calls(end: nat) | ReaderRuns

  function Step(lock: Lock, s: State, a: Action): State
    requires Shaped(lock, s)
  {
    match a
    case Writes(next) => Enter(lock, s, next)
    case WriterRuns => WriterStep(lock, s)
    case Calls(end) => if lock.parityTest then Call(s, end) else Call(s, 0)
    case ReaderRuns => if lock.excluded && s.writer != Outside then s else ReaderStep(lock, s)
  }

  function Run(lock: Lock, first: Words, schedule: seq<Action>): (s: State)
    requires |first| == lock.size
    ensures Shaped(lock, s)
  {
    if schedule == [] then Init(first)
    else Step(lock, Run(lock, first, schedule[..|schedule| - 1]), schedule[|schedule| - 1])
  }

  // ---- What every schedule keeps -----------------------------------------------------------

  predicate WriterInv(lock: Lock, s: State)
    requires Shaped(lock, s)
  {
    var latest := s.published[|s.published| - 1];
    match s.writer
    case Outside => s.sequence == 2 * (|s.published| - 1) && s.data == latest
    case Inside(next, k) =>
      s.sequence == 2 * (|s.published| - 1) + 1 && |next| == lock.size && k <= lock.size &&
      s.data[..k] == next[..k]
  }

  predicate Whole(s: State, start: nat) {
    start % 2 == 0 && s.since <= start / 2 < |s.published| && s.buffer == s.published[start / 2]
  }

  predicate ReaderInv(lock: Lock, s: State)
    requires Shaped(lock, s)
  {
    match s.reader
    case Away => true
    case Loading(_) => 2 * s.since <= s.sequence
    case Copying(start, _, k) =>
      start % 2 == 0 && 2 * s.since <= start <= s.sequence && k <= lock.size &&
      (start == s.sequence ==> s.buffer[..k] == s.data[..k])
    case Ending(start) =>
      start % 2 == 0 && 2 * s.since <= start <= s.sequence && (start == s.sequence ==> Whole(s, start))
    case Testing(start, end) =>
      start <= s.sequence && 2 * s.since <= s.sequence &&
      (start % 2 == 0 && start == end ==> Whole(s, start)) && (lock.excluded ==> start % 2 == 0)
  }

  /** What came back is one snapshot whole, and not older than the call. */
  predicate Genuine(published: seq<Words>, r: Returned) {
    exists i :: r.since <= i < |published| && r.words == published[i]
  }

  /** Returns from a pass that began outside the writer's section are genuine; with the parity test
      or the ranking there are no others. */
  predicate LogInv(lock: Lock, s: State) {
    forall j :: 0 <= j < |s.returned| ==>
      (s.returned[j].start % 2 == 0 ==> Genuine(s.published, s.returned[j])) &&
      (lock.parityTest || lock.excluded ==> s.returned[j].start % 2 == 0)
  }

  predicate Inv(lock: Lock, s: State) {
    Shaped(lock, s) && WriterInv(lock, s) && ReaderInv(lock, s) && LogInv(lock, s)
  }

  lemma EnterKeeps(lock: Lock, s: State, next: Words)
    requires Inv(lock, s)
    ensures Inv(lock, Enter(lock, s, next))
  {
  }

  lemma GenuineStays(published: seq<Words>, next: Words, r: Returned)
    requires Genuine(published, r)
    ensures Genuine(published + [next], r)
  {
    var i :| r.since <= i < |published| && r.words == published[i];
    assert (published + [next])[i] == r.words;
  }

  lemma WriterKeeps(lock: Lock, s: State)
    requires Inv(lock, s)
    ensures Inv(lock, WriterStep(lock, s))
  {
    if s.writer.Inside? {
      var next, k := s.writer.next, s.writer.k;
      var t := WriterStep(lock, s);
      if k < lock.size {
        assert t.data[..k + 1] == s.data[..k] + [next[k]];
        assert next[..k + 1] == next[..k] + [next[k]];
      } else {
        assert s.data[..k] == s.data && next[..k] == next;
        forall j | 0 <= j < |s.returned| && s.returned[j].start % 2 == 0
          ensures Genuine(t.published, t.returned[j])
        {
          GenuineStays(s.published, next, s.returned[j]);
        }
      }
    }
  }

  lemma CopyKeeps(lock: Lock, s: State)
    requires Inv(lock, s) && s.reader.Copying?
    ensures Inv(lock, ReaderStep(lock, s))
  {
    var t := ReaderStep(lock, s);
    var k := s.reader.k;
    if k < lock.size {
      assert t.buffer[..k + 1] == s.buffer[..k] + [s.data[k]];
      assert s.data[..k + 1] == s.data[..k] + [s.data[k]];
    } else {
      assert s.buffer[..k] == s.buffer && s.data[..k] == s.data;
    }
  }

  lemma ReaderKeeps(lock: Lock, s: State)
    requires Inv(lock, s) && (lock.excluded ==> s.writer == Outside)
    ensures Inv(lock, ReaderStep(lock, s))
  {
    match s.reader
    case Copying(_, _, _) => CopyKeeps(lock, s);
    case Testing(start, end) =>
      var t := ReaderStep(lock, s);
      if t.reader == Away && start % 2 == 0 {
        assert Whole(s, start);
        assert Genuine(t.published, Returned(s.buffer, s.since, start));
      }
    case _ =>
  }

  lemma {:induction false} Reachable(lock: Lock, first: Words, schedule: seq<Action>)
    requires |first| == lock.size
    ensures Inv(lock, Run(lock, first, schedule))
  {
    if schedule != [] {
      var s := Run(lock, first, schedule[..|schedule| - 1]);
      Reachable(lock, first, schedule[..|schedule| - 1]);
      match schedule[|schedule| - 1]
      case Writes(next) => EnterKeeps(lock, s, next);
      case WriterRuns => WriterKeeps(lock, s);
      case Calls(_) =>
      case ReaderRuns => if !(lock.excluded && s.writer != Outside) { ReaderKeeps(lock, s); }
    }
  }

  // ---- Main results ------------------------------------------------------------------------

  /** With the parity test, every schedule; without it, every schedule in which the reader does not
      run inside the writer's section: whatever is returned is one snapshot whole, the first one or
      one published, and not older than the latest when the reader was called. */
  lemma ReturnsAreWhole(lock: Lock, first: Words, schedule: seq<Action>)
    requires |first| == lock.size && (lock.parityTest || lock.excluded)
    ensures var s := Run(lock, first, schedule);
            forall r :: r in s.returned ==> Genuine(s.published, r)
  {
    Reachable(lock, first, schedule);
  }

  /** Whatever the reader, and whether or not it is kept out: a pass that began at an even counter
      returns a snapshot whole. */
  lemma EvenReturnsAreWhole(lock: Lock, first: Words, schedule: seq<Action>)
    requires |first| == lock.size
    ensures var s := Run(lock, first, schedule);
            forall r :: r in s.returned && r.start % 2 == 0 ==> Genuine(s.published, r)
  {
    Reachable(lock, first, schedule);
  }

  ghost predicate AlwaysWhole(lock: Lock) {
    forall first, schedule | |first| == lock.size ::
      var s := Run(lock, first, schedule);
      forall r :: r in s.returned ==> Genuine(s.published, r)
  }

  /** Exactly when a lock is safe for snapshots of more than one word. */
  lemma SafeExactly(lock: Lock)
    requires lock.size >= 2
    ensures AlwaysWhole(lock) <==> lock.parityTest || lock.excluded
  {
    if lock.parityTest || lock.excluded {
      forall first, schedule | |first| == lock.size
        ensures var s := Run(lock, first, schedule);
                forall r :: r in s.returned ==> Genuine(s.published, r)
      {
        ReturnsAreWhole(lock, first, schedule);
      }
    } else {
      var first, next := seq(lock.size, _ => 0), seq(lock.size, _ => 1);
      var schedule := StaleEndReturnsTorn(first, next);
      var s := Run(lock, first, schedule);
      var torn := s.returned[0];
      assert torn in s.returned && torn.words[1] == 1;
    }
  }

  // ---- A reader returns ----------------------------------------------------------------------

  /** The reader's own steps until it returns, if the writer is outside its section and stays there. */
  function Togo(lock: Lock, s: State): nat {
    match s.reader
    case Away => 0
    case Loading(_) => lock.size + 4
    case Copying(start, _, k) => (if k < lock.size then lock.size - k else 0) + 1 + TogoEnding(lock, s, start)
    case Ending(start) => TogoEnding(lock, s, start)
    case Testing(start, end) => TogoTesting(lock, start, end)
  }

  function TogoEnding(lock: Lock, s: State, start: nat): nat {
    1 + TogoTesting(lock, start, s.sequence)
  }

  function TogoTesting(lock: Lock, start: nat, end: nat): nat {
    1 + if start != end || (lock.parityTest && end % 2 != 0) then lock.size + 4 else 0
  }

  function Alone(lock: Lock, s: State, n: nat): (r: State)
    requires Shaped(lock, s)
    decreases n
  {
    if n == 0 then s else Alone(lock, ReaderStep(lock, s), n - 1)
  }

  /** The pass under way, if it is accepted, is accepted for the counter as it is. */
  predicate Current(s: State) {
    s.reader.Testing? && s.reader.start == s.reader.end ==> s.reader.start == s.sequence
  }

  lemma OneStepLess(lock: Lock, s: State)
    requires Inv(lock, s) && s.writer == Outside && s.reader != Away
    ensures var t := ReaderStep(lock, s);
            Inv(lock, t) && t.writer == Outside && Togo(lock, t) == Togo(lock, s) - 1 && t.published == s.published
    ensures var t := ReaderStep(lock, s);
            if t.reader != Away then t.returned == s.returned && (Current(s) ==> Current(t))
            else |t.returned| == |s.returned| + 1 && t.returned[..|s.returned|] == s.returned &&
                 (Current(s) ==> t.returned[|s.returned|].words == s.published[|s.published| - 1])
  {
    ReaderKeeps(lock, s);
  }

  /** Left alone by the writer, a reader that was called returns after a fixed number of its own steps, and
      with the latest snapshot unless it had already accepted an older one. */
  lemma {:induction false} ReaderReturns(lock: Lock, s: State)
    requires Inv(lock, s) && s.writer == Outside && s.reader != Away
    ensures Togo(lock, s) <= 2 * lock.size + 7
    ensures var r := Alone(lock, s, Togo(lock, s));
            r.reader == Away && |r.returned| == |s.returned| + 1 && r.returned[..|s.returned|] == s.returned &&
            (Current(s) ==> r.returned[|s.returned|].words == s.published[|s.published| - 1])
    decreases Togo(lock, s)
  {
    OneStepLess(lock, s);
    var t := ReaderStep(lock, s);
    if t.reader != Away {
      ReaderReturns(lock, t);
    }
    assert Alone(lock, s, Togo(lock, s)) == Alone(lock, t, Togo(lock, t));
  }

  // ---- A writer publishes, and a call is answered with what was there or newer ----------------

  function Writing(lock: Lock, s: State, n: nat): (r: State)
    requires Shaped(lock, s)
    ensures Shaped(lock, r)
    decreases n
  {
    if n == 0 then s else Writing(lock, WriterStep(lock, s), n - 1)
  }

  lemma {:induction false} WriterFinishes(lock: Lock, s: State)
    requires Inv(lock, s) && s.writer.Inside?
    ensures var next, r := s.writer.next, Writing(lock, s, lock.size - s.writer.k + 1);
            r == s.(sequence := s.sequence + 1, data := next, writer := Outside, published := s.published + [next])
    decreases lock.size - s.writer.k
  {
    WriterKeeps(lock, s);
    var t := WriterStep(lock, s);
    if s.writer.k < lock.size {
      WriterFinishes(lock, t);
    } else {
      assert s.data[..lock.size] == s.data && s.writer.next[..lock.size] == s.writer.next;
      assert Writing(lock, s, 1) == Writing(lock, t, 0);
    }
  }

  /** A snapshot written has replaced the one before after a step for every word and two more for the
      counter, which then is even again. */
  lemma WriterPublishes(lock: Lock, s: State, next: Words)
    requires Inv(lock, s) && s.writer == Outside && |next| == lock.size
    ensures var r := Writing(lock, Enter(lock, s, next), lock.size + 1);
            r.writer == Outside && r.data == next && r.published == s.published + [next] &&
            r.sequence == s.sequence + 2 && r.sequence % 2 == 0
  {
    EnterKeeps(lock, s, next);
    WriterFinishes(lock, Enter(lock, s, next));
  }

  /** Called and not back yet, or back with what it was called for first. */
  predicate CalledAt(s: State, since: nat, before: nat) {
    if s.reader != Away && |s.returned| == before then s.since == since
    else |s.returned| > before && s.returned[before].since == since
  }

  lemma CallStays(lock: Lock, s: State, since: nat, before: nat, a: Action)
    requires Shaped(lock, s) && CalledAt(s, since, before)
    ensures CalledAt(Step(lock, s, a), since, before)
  {
  }

  lemma {:induction false} CallIsKept(
      lock: Lock, first: Words, called: seq<Action>, during: seq<Action>, since: nat, before: nat)
    requires |first| == lock.size && CalledAt(Run(lock, first, called), since, before)
    ensures CalledAt(Run(lock, first, called + during), since, before)
    decreases |during|
  {
    if during == [] {
      assert called + during == called;
    } else {
      var n := |during| - 1;
      CallIsKept(lock, first, called, during[..n], since, before);
      Snoc(lock, first, called + during[..n], during[n]);
      assert called + during == called + during[..n] + [during[n]];
      CallStays(lock, Run(lock, first, called + during[..n]), since, before, during[n]);
    }
  }

  /** Under a safe lock a call is answered with a whole snapshot: the one that was the latest at the
      call, or one published since. */
  lemma AnswerIsRecent(lock: Lock, first: Words, schedule: seq<Action>, end: nat, during: seq<Action>)
    requires |first| == lock.size && (lock.parityTest || lock.excluded)
    requires Run(lock, first, schedule).reader == Away
    ensures var s, t := Run(lock, first, schedule), Run(lock, first, schedule + [Calls(end)] + during);
            var n := |s.returned|;
            |t.returned| > n ==>
              exists i :: |s.published| - 1 <= i < |t.published| && t.returned[n].words == t.published[i]
  {
    var called := schedule + [Calls(end)];
    var s, t := Run(lock, first, schedule), Run(lock, first, called + during);
    Snoc(lock, first, schedule, Calls(end));
    CallIsKept(lock, first, called, during, |s.published| - 1, |s.returned|);
    ReturnsAreWhole(lock, first, called + during);
    if |t.returned| > |s.returned| {
      assert Genuine(t.published, t.returned[|s.returned|]);
    }
  }

  // ---- The stale end value -----------------------------------------------------------------

  lemma Snoc(lock: Lock, first: Words, schedule: seq<Action>, a: Action)
    requires |first| == lock.size
    ensures Run(lock, first, schedule + [a]) == Step(lock, Run(lock, first, schedule), a)
  {
    assert (schedule + [a])[..|schedule|] == schedule;
  }

  lemma {:induction false} WriteAll(lock: Lock, first: Words, before: seq<Action>, next: Words, k: nat)
    returns (schedule: seq<Action>)
    requires |first| == lock.size == |next| && k <= lock.size
    requires Run(lock, first, before).writer == Inside(next, k)
    requires Run(lock, first, before).data[..k] == next[..k]
    ensures Run(lock, first, schedule) ==
            Run(lock, first, before).(data := next, writer := Inside(next, lock.size))
    decreases lock.size - k
  {
    schedule := before;
    var s := Run(lock, first, before);
    if k < lock.size {
      Snoc(lock, first, before, WriterRuns);
      assert s.data[k := next[k]][..k + 1] == s.data[..k] + [next[k]] == next[..k + 1];
      schedule := WriteAll(lock, first, before + [WriterRuns], next, k + 1);
    } else {
      assert s.data[..k] == s.data && next[..k] == next;
    }
  }

  lemma {:induction false} ReadAll(lock: Lock, first: Words, before: seq<Action>, start: nat, end: nat, k: nat)
    returns (schedule: seq<Action>)
    requires |first| == lock.size && k <= lock.size && !lock.excluded
    requires Run(lock, first, before).reader == Copying(start, end, k)
    ensures var s := Run(lock, first, before);
            Run(lock, first, schedule) ==
            s.(buffer := s.buffer[..k] + s.data[k..], reader := Copying(start, end, lock.size))
    decreases lock.size - k
  {
    schedule := before;
    var s := Run(lock, first, before);
    if k < lock.size {
      Snoc(lock, first, before, ReaderRuns);
      var b := s.buffer[k := s.data[k]];
      assert b[..k + 1] == s.buffer[..k] + [s.data[k]];
      assert s.data[k..] == [s.data[k]] + s.data[k + 1..];
      assert b[..k + 1] + s.data[k + 1..] == s.buffer[..k] + s.data[k..];
      schedule := ReadAll(lock, first, before + [ReaderRuns], start, end, k + 1);
    } else {
      assert s.buffer[..k] + s.data[k..] == s.buffer;
    }
  }

  /** Neither the parity test nor the ranking: a pass cut in two by the writer leaves an odd end
      value behind, the next pass finds the counter odd and equal to it, and the torn copy is
      returned. */
  lemma StaleEndReturnsTorn(first: Words, next: Words) returns (schedule: seq<Action>)
    requires |first| == |next| >= 2
    ensures var s := Run(Lock(|first|, false, false), first, schedule);
            s.published == [first] && s.returned == [Returned([first[0]] + next[1..], 0, 1)]
  {
    var lock := Lock(|first|, false, false);
    schedule := [];
    Snoc(lock, first, schedule, Calls(0));
    schedule := schedule + [Calls(0)];
    Snoc(lock, first, schedule, ReaderRuns);
    schedule := schedule + [ReaderRuns];
    Snoc(lock, first, schedule, ReaderRuns);
    schedule := schedule + [ReaderRuns];
    Snoc(lock, first, schedule, Writes(next));
    schedule := schedule + [Writes(next)];
    schedule := WriteAll(lock, first, schedule, next, 0);
    schedule := ReadAll(lock, first, schedule, 0, 0, 1);
    assert Run(lock, first, schedule).buffer == [first[0]] + next[1..];
    schedule := FinishStale(lock, first, schedule);
  }

  lemma FinishStale(lock: Lock, first: Words, before: seq<Action>) returns (schedule: seq<Action>)
    requires lock == Lock(|first|, false, false)
    requires var s := Run(lock, first, before);
             s.sequence == 1 && s.reader == Copying(0, 0, lock.size) && s.writer.Inside?
    ensures var s := Run(lock, first, before);
            Run(lock, first, schedule) ==
            s.(reader := Away, returned := s.returned + [Returned(s.buffer, s.since, 1)])
  {
    schedule := before;
    Snoc(lock, first, schedule, ReaderRuns);
    schedule := schedule + [ReaderRuns];
    Snoc(lock, first, schedule, ReaderRuns);
    schedule := schedule + [ReaderRuns];
    Snoc(lock, first, schedule, ReaderRuns);
    schedule := schedule + [ReaderRuns];
    Snoc(lock, first, schedule, ReaderRuns);
    schedule := schedule + [ReaderRuns];
    Snoc(lock, first, schedule, ReaderRuns);
    schedule := schedule + [ReaderRuns];
  }
}
