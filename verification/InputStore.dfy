/** The lockstep input store: two slots, a generation counter and a binary semaphore, shared by the
    coordinator that publishes and the controller that waits and reads. Every byte copied is a step
    of its own, and the two threads' steps interleave in any order. */
module InputStore {
  import opened Bytes

  const MAX_SIZE := 56

  /** Whether the 56 bytes of an inertial sample carry both their gyro and their accelerometer. */
  type Flags = seq<byte> -> bool

  predicate Decodable(flags: Flags, buf: seq<byte>) {
    |buf| == MAX_SIZE && flags(buf)
  }

  datatype Writer =
    | Idle
    | Copying(buf: seq<byte>, k: nat)
    | Sizing(buf: seq<byte>)
    | Announcing(buf: seq<byte>)
    | Giving

  datatype Reader =
    | Away
    | Asking                                          // wait_next, its first look
    | Blocked                                         // on the semaphore
    | Woken
    | Fetching                                        // latest_input_get, top of the retry loop
    | Measuring(start: nat)
    | Reading(start: nat, len: nat, got: seq<byte>)   // also the final comparison, once all is got
    | Failed

  datatype Fetch = Fetch(generation: nat, buf: seq<byte>)

  datatype State = State(
    slots: seq<seq<byte>>, lengths: seq<nat>, generation: nat, sem: nat,
    writer: Writer, reader: Reader, last: nat,
    published: seq<seq<byte>>, awaited: seq<nat>, fetched: seq<Fetch>)

  function Blank(): (s: seq<byte>)
    ensures |s| == MAX_SIZE
  {
    seq(MAX_SIZE, _ => 0)
  }

  function Init(): State {
    State([Blank(), Blank()], [0, 0], 0, 0, Idle, Away, 0, [], [], [])
  }

  predicate Shaped(s: State) {
    |s.slots| == 2 && |s.slots[0]| == MAX_SIZE && |s.slots[1]| == MAX_SIZE && |s.lengths| == 2
  }

  // ---- The publisher -----------------------------------------------------------------------

  /** An input blob arrives: only a decodable one is stored. */
  function Offer(flags: Flags, s: State, buf: seq<byte>): State {
    if s.writer == Idle && Decodable(flags, buf) then s.(writer := Copying(buf, 0)) else s
  }

  function WriterStep(s: State): (r: State)
    requires Shaped(s)
    ensures Shaped(r)
  {
    var slot := (s.generation + 1) % 2;
    match s.writer
    case Idle => s
    case Copying(buf, k) =>
      if k < |buf| && k < MAX_SIZE then
        s.(slots := s.slots[slot := s.slots[slot][k := buf[k]]], writer := Copying(buf, k + 1))
      else s.(writer := Sizing(buf))
    case Sizing(buf) => s.(lengths := s.lengths[slot := |buf|], writer := Announcing(buf))
    case Announcing(buf) =>
      s.(generation := s.generation + 1, published := s.published + [buf], writer := Giving)
    case Giving => s.(sem := 1, writer := Idle)
  }

  // ---- The controller ----------------------------------------------------------------------

  function Look(s: State): State {
    if s.generation != 0 && s.generation != s.last
    then s.(last := s.generation, awaited := s.awaited + [s.generation], reader := Fetching)
    else s.(reader := Blocked)
  }

  function ReaderStep(s: State): (r: State)
    requires Shaped(s)
    ensures Shaped(r)
  {
    match s.reader
    case Away => s.(reader := Asking)
    case Asking => Look(s)
    case Blocked => if s.sem > 0 then s.(sem := 0, reader := Woken) else s
    case Woken => Look(s)
    case Fetching => if s.generation == 0 then s.(reader := Failed) else s.(reader := Measuring(s.generation))
    case Measuring(start) =>
      var n := s.lengths[start % 2];
      if n == 0 || n > MAX_SIZE then s.(reader := Failed) else s.(reader := Reading(start, n, []))
    case Reading(start, n, got) =>
      if |got| < n && |got| < MAX_SIZE then
        s.(reader := Reading(start, n, got + [s.slots[start % 2][|got|]]))
      else if s.generation != start then s.(reader := Fetching)
      else s.(reader := Away, fetched := s.fetched + [Fetch(start, got)])
    case Failed => s
  }

  /** A bounded wait runs out. */
  function Expire(s: State): State {
    if s.reader == Blocked then s.(reader := Away) else s
  }

  // ---- Schedules ---------------------------------------------------------------------------

  datatype Action = Offered(buf: seq<byte>) | WriterRuns | ReaderRuns | Expires

  function Step(flags: Flags, s: State, a: Action): State
    requires Shaped(s)
  {
    match a
    case Offered(buf) => Offer(flags, s, buf)
    case WriterRuns => WriterStep(s)
    case ReaderRuns => ReaderStep(s)
    case Expires => Expire(s)
  }

  function Run(flags: Flags, schedule: seq<Action>): (s: State)
    ensures Shaped(s)
  {
    if schedule == [] then Init()
    else Step(flags, Run(flags, schedule[..|schedule| - 1]), schedule[|schedule| - 1])
  }

  // ---- What every schedule keeps -----------------------------------------------------------

  predicate Holds(s: State, slot: nat, buf: seq<byte>)
    requires Shaped(s) && slot < 2
  {
    |buf| == MAX_SIZE && s.lengths[slot] == MAX_SIZE && s.slots[slot] == buf
  }

  predicate StoreInv(flags: Flags, s: State)
    requires Shaped(s)
  {
    s.generation == |s.published| && s.sem <= 1 &&
    (forall g :: 0 <= g < |s.published| ==> Decodable(flags, s.published[g])) &&
    (s.generation > 0 ==> Holds(s, s.generation % 2, s.published[s.generation - 1])) &&
    (s.generation > 1 ==> s.lengths[(s.generation - 1) % 2] == MAX_SIZE)
  }

  predicate WriterInv(flags: Flags, s: State)
    requires Shaped(s)
  {
    var slot := (s.generation + 1) % 2;
    match s.writer
    case Idle => true
    case Copying(buf, k) => Decodable(flags, buf) && k <= MAX_SIZE && s.slots[slot][..k] == buf[..k]
    case Sizing(buf) => Decodable(flags, buf) && s.slots[slot] == buf
    case Announcing(buf) => Decodable(flags, buf) && Holds(s, slot, buf)
    case Giving => s.generation > 0
  }

  predicate ReaderInv(s: State)
    requires Shaped(s) && s.generation == |s.published|
  {
    s.last <= s.generation &&
    match s.reader
    case Fetching => s.generation > 0
    case Measuring(start) => 0 < start <= s.generation && s.last <= start
    case Reading(start, n, got) =>
      0 < start <= s.generation && s.last <= start && n == MAX_SIZE && |got| <= MAX_SIZE &&
      (start == s.generation && |s.published[start - 1]| == MAX_SIZE ==> got == s.published[start - 1][..|got|])
    case Failed => false
    case _ => true
  }

  /** No wakeup is lost: an unseen generation has its semaphore given or about to be. */
  predicate WakeInv(s: State) {
    s.reader == Blocked && s.generation != 0 && s.generation != s.last ==> s.sem == 1 || s.writer == Giving
  }

  predicate Whole(published: seq<seq<byte>>, f: Fetch) {
    0 < f.generation <= |published| && f.buf == published[f.generation - 1]
  }

  predicate Busy(r: Reader) {
    r.Fetching? || r.Measuring? || r.Reading?
  }

  predicate Rising(gs: seq<nat>, bound: nat) {
    (forall i :: 0 <= i < |gs| ==> 0 < gs[i] <= bound) &&
    (forall i, j :: 0 <= i < j < |gs| ==> gs[i] < gs[j])
  }

  predicate AllWhole(published: seq<seq<byte>>, fs: seq<Fetch>) {
    forall i :: 0 <= i < |fs| ==> Whole(published, fs[i])
  }

  predicate InOrder(fs: seq<Fetch>) {
    forall i, j :: 0 <= i < j < |fs| ==> fs[i].generation <= fs[j].generation
  }

  /** Each fetch is at least as new as the wait that led to it. */
  predicate Answered(gs: seq<nat>, fs: seq<Fetch>) {
    forall i :: 0 <= i < |fs| && i < |gs| ==> gs[i] <= fs[i].generation
  }

  predicate LogInv(s: State) {
    AllWhole(s.published, s.fetched) && InOrder(s.fetched) && Rising(s.awaited, s.last) &&
    Answered(s.awaited, s.fetched) && |s.awaited| == |s.fetched| + if Busy(s.reader) then 1 else 0
  }

  predicate Inv(flags: Flags, s: State) {
    Shaped(s) && StoreInv(flags, s) && WriterInv(flags, s) && ReaderInv(s) && WakeInv(s) && LogInv(s)
  }

  lemma OfferKeeps(flags: Flags, s: State, buf: seq<byte>)
    requires Inv(flags, s)
    ensures Inv(flags, Offer(flags, s, buf))
  {
  }

  lemma CopyKeeps(flags: Flags, s: State)
    requires Inv(flags, s) && s.writer.Copying?
    ensures Inv(flags, WriterStep(s))
  {
    var r := WriterStep(s);
    var slot := (s.generation + 1) % 2;
    if s.writer.k < MAX_SIZE {
      var k := s.writer.k;
      assert r.slots[slot][..k + 1] == s.slots[slot][..k] + [s.writer.buf[k]];
      assert s.writer.buf[..k + 1] == s.writer.buf[..k] + [s.writer.buf[k]];
    } else {
      assert s.slots[slot][..MAX_SIZE] == s.slots[slot] && s.writer.buf[..MAX_SIZE] == s.writer.buf;
    }
  }

  lemma AnnounceKeeps(flags: Flags, s: State)
    requires Inv(flags, s) && s.writer.Announcing?
    ensures Inv(flags, WriterStep(s))
  {
    var r := WriterStep(s);
    forall i | 0 <= i < |s.fetched| ensures Whole(r.published, s.fetched[i]) {
      assert Whole(s.published, s.fetched[i]);
    }
  }

  lemma WriterKeeps(flags: Flags, s: State)
    requires Inv(flags, s)
    ensures Inv(flags, WriterStep(s))
  {
    if s.writer.Copying? {
      CopyKeeps(flags, s);
    } else if s.writer.Announcing? {
      AnnounceKeeps(flags, s);
    }
  }

  lemma ReadKeeps(flags: Flags, s: State)
    requires Inv(flags, s) && s.reader.Reading?
    ensures Inv(flags, ReaderStep(s))
  {
    var start, got := s.reader.start, s.reader.got;
    var p := s.published[start - 1];
    assert Decodable(flags, p);
    if |got| < MAX_SIZE {
      assert p[..|got| + 1] == p[..|got|] + [p[|got|]];
    } else if start == s.generation {
      assert got == p[..MAX_SIZE] == p;
    }
  }

  lemma AwaitedGrows(gs: seq<nat>, fs: seq<Fetch>, last: nat, g: nat)
    requires Rising(gs, last) && Answered(gs, fs) && |gs| == |fs| && last < g
    ensures Rising(gs + [g], g) && Answered(gs + [g], fs)
  {
    var more := gs + [g];
    forall i | 0 <= i < |more| ensures 0 < more[i] <= g {
      assert i < |gs| ==> more[i] == gs[i];
    }
    forall i, j | 0 <= i < j < |more| ensures more[i] < more[j] {
      assert more[i] == gs[i] <= last;
    }
  }

  lemma LookKeeps(flags: Flags, s: State)
    requires Inv(flags, s) && (s.reader.Asking? || s.reader.Woken?)
    ensures Inv(flags, ReaderStep(s))
  {
    if s.generation != 0 && s.generation != s.last {
      AwaitedGrows(s.awaited, s.fetched, s.last, s.generation);
    }
  }

  lemma ReaderKeeps(flags: Flags, s: State)
    requires Inv(flags, s)
    ensures Inv(flags, ReaderStep(s))
  {
    if s.reader.Reading? {
      ReadKeeps(flags, s);
    } else if s.reader.Asking? || s.reader.Woken? {
      LookKeeps(flags, s);
    } else if s.reader.Measuring? {
      MeasureKeeps(flags, s);
    } else {
      WaitKeeps(flags, s);
    }
  }

  lemma MeasureKeeps(flags: Flags, s: State)
    requires Inv(flags, s) && s.reader.Measuring?
    ensures Inv(flags, ReaderStep(s))
  {
    var start := s.reader.start;
    assert s.lengths[start % 2] == MAX_SIZE;
  }

  lemma WaitKeeps(flags: Flags, s: State)
    requires Inv(flags, s) && (s.reader.Away? || s.reader.Blocked? || s.reader.Fetching? || s.reader.Failed?)
    ensures Inv(flags, ReaderStep(s))
  {
  }

  lemma StepKeeps(flags: Flags, s: State, a: Action)
    requires Inv(flags, s)
    ensures Inv(flags, Step(flags, s, a))
  {
    match a
    case Offered(buf) => OfferKeeps(flags, s, buf);
    case WriterRuns => WriterKeeps(flags, s);
    case ReaderRuns => ReaderKeeps(flags, s);
    case Expires => ExpireKeeps(flags, s);
  }

  lemma ExpireKeeps(flags: Flags, s: State)
    requires Inv(flags, s)
    ensures Inv(flags, Expire(s))
  {
  }

  lemma {:induction false} Reachable(flags: Flags, schedule: seq<Action>)
    ensures Inv(flags, Run(flags, schedule))
  {
    if schedule != [] {
      var before := schedule[..|schedule| - 1];
      Reachable(flags, before);
      StepKeeps(flags, Run(flags, before), schedule[|schedule| - 1]);
    }
  }

  // ---- Main results ------------------------------------------------------------------------

  /** Under every schedule a fetch returns one published input whole, which is one that was offered
      and decodes; fetching never gives up; and what each wait announced is new and not newer than
      what was then fetched. */
  lemma FetchesAreWhole(flags: Flags, schedule: seq<Action>)
    ensures var s := Run(flags, schedule);
            !s.reader.Failed? && Rising(s.awaited, s.generation) && Answered(s.awaited, s.fetched) &&
            InOrder(s.fetched)
    ensures var s := Run(flags, schedule);
            forall f :: f in s.fetched ==>
              0 < f.generation <= |s.published| && f.buf == s.published[f.generation - 1] &&
              |f.buf| == 56 && flags(f.buf) && Offered(f.buf) in schedule
  {
    Reachable(flags, schedule);
    PublishedWasOffered(flags, schedule);
    var s := Run(flags, schedule);
    forall f | f in s.fetched ensures Whole(s.published, f) && Decodable(flags, f.buf) && Offered(f.buf) in schedule {
      var i :| 0 <= i < |s.fetched| && s.fetched[i] == f;
      assert Whole(s.published, s.fetched[i]);
      assert s.published[f.generation - 1] in s.published;
    }
  }

  /** What is published, or on its way, was offered. */
  ghost predicate WasOffered(s: State, schedule: seq<Action>) {
    (forall p :: p in s.published ==> Offered(p) in schedule) &&
    (s.writer.Copying? || s.writer.Sizing? || s.writer.Announcing? ==> Offered(s.writer.buf) in schedule)
  }

  lemma {:induction false} PublishedWasOffered(flags: Flags, schedule: seq<Action>)
    ensures WasOffered(Run(flags, schedule), schedule)
  {
    if schedule != [] {
      var before, a := schedule[..|schedule| - 1], schedule[|schedule| - 1];
      PublishedWasOffered(flags, before);
      OneMoreOffered(flags, Run(flags, before), before, a);
      assert before + [a] == schedule;
    }
  }

  lemma OneMoreOffered(flags: Flags, s: State, schedule: seq<Action>, a: Action)
    requires Shaped(s) && WasOffered(s, schedule)
    ensures WasOffered(Step(flags, s, a), schedule + [a])
  {
  }

  /** The retry loop makes the read atomic: at the step that accepts it, the input it returns is
      the latest one there is. */
  lemma AcceptedReadIsLatest(flags: Flags, schedule: seq<Action>, a: Action)
    requires |Run(flags, schedule + [a]).fetched| > |Run(flags, schedule).fetched|
    ensures var s := Run(flags, schedule + [a]);
            0 < s.generation == |s.published| &&
            s.fetched[|s.fetched| - 1] == Fetch(s.generation, s.published[s.generation - 1])
  {
    assert (schedule + [a])[..|schedule|] == schedule;
    Reachable(flags, schedule);
    AcceptingStep(flags, Run(flags, schedule), a);
  }

  lemma AcceptingStep(flags: Flags, s: State, a: Action)
    requires Inv(flags, s) && |Step(flags, s, a).fetched| > |s.fetched|
    ensures var r := Step(flags, s, a);
            0 < r.generation == |r.published| &&
            r.fetched[|r.fetched| - 1] == Fetch(r.generation, r.published[r.generation - 1])
  {
    var p := s.published[s.generation - 1];
    assert p[..MAX_SIZE] == p;
  }

  /** Blocked on an empty semaphore with the publisher idle: there is nothing it has not seen. */
  lemma NoLostWakeup(flags: Flags, schedule: seq<Action>)
    ensures var s := Run(flags, schedule);
            s.reader == Blocked && s.sem == 0 && s.writer == Idle ==> s.generation == s.last
  {
    Reachable(flags, schedule);
    var s := Run(flags, schedule);
    assert s.generation == 0 ==> s.last == 0;
  }

  function Alone(s: State, n: nat): (r: State)
    requires Shaped(s)
    ensures Shaped(r)
    decreases n
  {
    if n == 0 then s else Alone(ReaderStep(s), n - 1)
  }

  lemma {:induction false} AloneKeeps(flags: Flags, s: State, n: nat)
    requires Inv(flags, s)
    ensures Inv(flags, Alone(s, n))
    decreases n
  {
    if n > 0 {
      ReaderKeeps(flags, s);
      AloneKeeps(flags, ReaderStep(s), n - 1);
    }
  }

  lemma LastCopyStep(flags: Flags, s: State)
    requires Inv(flags, s) && s.reader.Reading? && s.reader.start == s.generation && |s.reader.got| == MAX_SIZE
    ensures ReaderStep(s) ==
            s.(reader := Away, fetched := s.fetched + [Fetch(s.generation, s.published[s.generation - 1])])
  {
    var p := s.published[s.generation - 1];
    assert Decodable(flags, p) && p[..MAX_SIZE] == p;
  }

  lemma {:induction false} CopyAlone(flags: Flags, s: State)
    requires Inv(flags, s) && s.reader.Reading? && s.reader.start == s.generation
    ensures var n := MAX_SIZE - |s.reader.got| + 1;
            Alone(s, n) == s.(reader := Away,
                              fetched := s.fetched + [Fetch(s.generation, s.published[s.generation - 1])])
    decreases MAX_SIZE - |s.reader.got|
  {
    var t := ReaderStep(s);
    if |s.reader.got| < MAX_SIZE {
      ReaderKeeps(flags, s);
      assert t.generation == s.generation && t.published == s.published && t.fetched == s.fetched;
      CopyAlone(flags, t);
    } else {
      LastCopyStep(flags, s);
      assert Alone(s, 1) == Alone(t, 0);
    }
  }

  lemma FetchAlone(flags: Flags, s: State)
    requires Inv(flags, s) && s.reader == Fetching
    ensures Alone(s, MAX_SIZE + 3) ==
            s.(reader := Away, fetched := s.fetched + [Fetch(s.generation, s.published[s.generation - 1])])
  {
    var m := ReaderStep(s);
    var r := ReaderStep(m);
    ReaderKeeps(flags, s);
    ReaderKeeps(flags, m);
    CopyAlone(flags, r);
    assert Alone(s, MAX_SIZE + 3) == Alone(m, MAX_SIZE + 2) == Alone(r, MAX_SIZE + 1);
  }

  /** Left alone, a waiting controller with an unseen input has fetched it after a fixed number of
      its own steps: it wakes, and one pass of the retry loop is enough. */
  lemma UnseenInputIsFetched(flags: Flags, s: State) returns (n: nat)
    requires Inv(flags, s) && s.writer == Idle && s.generation != s.last
    requires s.reader == Asking || s.reader == Blocked || s.reader == Woken
    ensures n <= MAX_SIZE + 5
    ensures var r := Alone(s, n);
            r.reader == Away && r.last == s.generation &&
            r.fetched == s.fetched + [Fetch(s.generation, s.published[s.generation - 1])]
  {
    ReaderKeeps(flags, s);
    var a := ReaderStep(s);
    if s.reader == Blocked {
      ReaderKeeps(flags, a);
      FetchAlone(flags, ReaderStep(a));
      n := MAX_SIZE + 5;
      assert Alone(s, n) == Alone(a, n - 1) == Alone(ReaderStep(a), n - 2);
    } else {
      FetchAlone(flags, a);
      n := MAX_SIZE + 4;
    }
  }

  // ---- One input read twice ----------------------------------------------------------------

  /** As long as each fetch returns the generation its wait announced, no input is read twice. */
  lemma NotOvertakenNotTwice(flags: Flags, schedule: seq<Action>, i: nat, j: nat)
    requires i < j < |Run(flags, schedule).fetched| && i < |Run(flags, schedule).awaited|
    requires Run(flags, schedule).fetched[i].generation == Run(flags, schedule).awaited[i]
    ensures Run(flags, schedule).fetched[i].generation < Run(flags, schedule).fetched[j].generation
  {
    Reachable(flags, schedule);
  }

  function Writes(s: State, n: nat): (r: State)
    requires Shaped(s)
    ensures Shaped(r)
    decreases n
  {
    if n == 0 then s else Writes(WriterStep(s), n - 1)
  }

  lemma {:induction false} PublishAlone(flags: Flags, s: State)
    requires Inv(flags, s) && s.writer.Copying?
    ensures var r := Writes(s, MAX_SIZE - s.writer.k + 4);
            Inv(flags, r) && r.reader == s.reader && r.last == s.last && r.writer == Idle &&
            r.published == s.published + [s.writer.buf] && r.awaited == s.awaited && r.fetched == s.fetched
    decreases MAX_SIZE - s.writer.k
  {
    if s.writer.k < MAX_SIZE {
      OneByteWritten(flags, s);
      PublishAlone(flags, WriterStep(s));
    } else {
      AllWritten(flags, s);
    }
  }

  lemma OneByteWritten(flags: Flags, s: State)
    requires Inv(flags, s) && s.writer.Copying? && s.writer.k < MAX_SIZE
    ensures var a := WriterStep(s);
            Inv(flags, a) && a.writer == Copying(s.writer.buf, s.writer.k + 1) && a.reader == s.reader &&
            a.last == s.last && a.published == s.published && a.awaited == s.awaited && a.fetched == s.fetched
  {
    WriterKeeps(flags, s);
  }

  lemma AllWritten(flags: Flags, s: State)
    requires Inv(flags, s) && s.writer.Copying? && s.writer.k == MAX_SIZE
    ensures var r := Writes(s, 4);
            Inv(flags, r) && r.reader == s.reader && r.last == s.last && r.writer == Idle &&
            r.published == s.published + [s.writer.buf] && r.awaited == s.awaited && r.fetched == s.fetched
  {
    var a := WriterStep(s);
    var b := WriterStep(a);
    var c := WriterStep(b);
    WriterKeeps(flags, s);
    WriterKeeps(flags, a);
    WriterKeeps(flags, b);
    WriterKeeps(flags, c);
    assert Writes(s, 4) == Writes(a, 3) == Writes(b, 2) == Writes(c, 1) == Writes(WriterStep(c), 0);
  }

  /** An input of 56 bytes that carries both sensors is published, in a fixed number of the publisher's
      steps; any other leaves no trace. */
  lemma OfferedIsPublished(flags: Flags, s: State, buf: seq<byte>)
    requires Inv(flags, s) && s.writer == Idle
    ensures |buf| == 56 && flags(buf) ==>
              Writes(Offer(flags, s, buf), MAX_SIZE + 4).published == s.published + [buf]
    ensures !(|buf| == 56 && flags(buf)) ==> Offer(flags, s, buf) == s
  {
    if |buf| == 56 && flags(buf) {
      OfferKeeps(flags, s, buf);
      PublishAlone(flags, Offer(flags, s, buf));
    }
  }

  /** Overtaken between its wait and its read, the controller reads the newer input, and the next
      wait returns at once with that same input. */
  lemma OvertakenReadsTwice(flags: Flags, s: State, buf: seq<byte>)
    requires Inv(flags, s) && s.reader == Fetching && s.writer == Idle && |buf| == 56 && flags(buf)
    ensures var p := Writes(Offer(flags, s, buf), MAX_SIZE + 4);
            var r := Alone(Alone(p, MAX_SIZE + 3), MAX_SIZE + 5);
            var f := Fetch(s.generation + 1, buf);
            r.published == s.published + [buf] && r.fetched == s.fetched + [f] + [f]
  {
    var o := Offer(flags, s, buf);
    OfferKeeps(flags, s, buf);
    PublishAlone(flags, o);
    var p := Writes(o, MAX_SIZE + 4);
    FetchAlone(flags, p);
    var q := Alone(p, MAX_SIZE + 3);
    var a := ReaderStep(q);
    var b := ReaderStep(a);
    AloneKeeps(flags, p, MAX_SIZE + 3);
    ReaderKeeps(flags, q);
    ReaderKeeps(flags, a);
    FetchAlone(flags, b);
    assert Alone(q, MAX_SIZE + 5) == Alone(a, MAX_SIZE + 4) == Alone(b, MAX_SIZE + 3);
  }
}
