/** The firmware's byte-at-a-time receiver: fixed buffers, a state and a position, and a parser
    body that is re-entered once to rescan a rejected candidate. */
module Receiver {
  import opened Bytes
  import opened Framing
  import opened Scanner
  import opened Decoder
  import opened Refinement

  const HEADER_TAIL := 6

  datatype RxState = RxSync0 | RxSync1 | RxHeader | RxPayload | RxCrc

  /** What the link carries: a row of the topic table. */
  datatype Topic = Topic(id: u16, rx: bool, hasPublisher: bool, payloadSize: u16)

  function TopicById(topics: seq<Topic>, id: u16): (i: nat)
    ensures i <= |topics|
    ensures i < |topics| ==> topics[i].id == id
    ensures forall k :: 0 <= k < i ==> topics[k].id != id
  {
    if topics == [] || topics[0].id == id then 0
    else
      var i := TopicById(topics[1..], id);
      assert forall k :: 1 <= k < i + 1 ==> topics[k] == topics[1..][k - 1];
      i + 1
  }

  /** What becomes of a frame that passed the CRC; `taken` is the topic store's answer, should it be
      asked. */
  datatype Outcome = Published | UnknownTopic | WrongDirection | WrongSize

  function OutcomeOf(topics: seq<Topic>, f: Frame, taken: bool): Outcome {
    var i := TopicById(topics, f.topicId);
    if i == |topics| then UnknownTopic
    else if !topics[i].rx || !topics[i].hasPublisher then WrongDirection
    else if |f.payload| != topics[i].payloadSize || !taken then WrongSize
    else Published
  }

  /** Row i is the one the id selects. */
  predicate Selects(topics: seq<Topic>, id: u16, i: nat) {
    i < |topics| && topics[i].id == id && forall k :: 0 <= k < i ==> topics[k].id != id
  }

  /** A frame is published exactly when the first row with its id is inbound, has a publisher and has the
      frame's size, and the store takes it; each other case has its own counter. */
  lemma OutcomeExactly(topics: seq<Topic>, f: Frame, taken: bool)
    ensures OutcomeOf(topics, f, taken) == UnknownTopic <==>
            forall k :: 0 <= k < |topics| ==> topics[k].id != f.topicId
    ensures forall i: nat :: Selects(topics, f.topicId, i) ==>
              (OutcomeOf(topics, f, taken) == WrongDirection <==> !(topics[i].rx && topics[i].hasPublisher)) &&
              (OutcomeOf(topics, f, taken) == Published <==>
                topics[i].rx && topics[i].hasPublisher && topics[i].payloadSize == |f.payload| && taken)
  {
    forall i: nat | Selects(topics, f.topicId, i) ensures i == TopicById(topics, f.topicId) {
    }
  }

  /** What became of each frame; the store gives its answers one after another. */
  function Outcomes(topics: seq<Topic>, log: seq<Frame>, store: nat -> bool): (os: seq<Outcome>)
    ensures |os| == |log|
  {
    seq(|log|, k requires 0 <= k < |log| => OutcomeOf(topics, log[k], store(k)))
  }

  function Number(os: seq<Outcome>, o: Outcome): nat {
    if os == [] then 0 else Number(os[..|os| - 1], o) + if os[|os| - 1] == o then 1 else 0
  }

  /** The frames that were published, in order. */
  function PublishedOf(log: seq<Frame>, os: seq<Outcome>): (fs: seq<Frame>)
    requires |os| == |log|
  {
    if log == [] then []
    else
      var n := |log| - 1;
      PublishedOf(log[..n], os[..n]) + if os[n] == Published then [log[n]] else []
  }

  /** What was published, and how many frames came to each outcome. */
  datatype Books = Books(published: seq<Frame>, frames: nat, unknown: nat, wrong: nat, wrongSize: nat)

  function Book(b: Books, f: Frame, o: Outcome): Books {
    match o
    case Published => b.(published := b.published + [f], frames := b.frames + 1)
    case UnknownTopic => b.(unknown := b.unknown + 1)
    case WrongDirection => b.(wrong := b.wrong + 1)
    case WrongSize => b.(wrongSize := b.wrongSize + 1)
  }

  function BooksOf(topics: seq<Topic>, log: seq<Frame>, store: nat -> bool): Books {
    if log == [] then Books([], 0, 0, 0, 0)
    else
      var n := |log| - 1;
      Book(BooksOf(topics, log[..n], store), log[n], OutcomeOf(topics, log[n], store(n)))
  }

  lemma BooksGrow(topics: seq<Topic>, log: seq<Frame>, store: nat -> bool, f: Frame)
    ensures BooksOf(topics, log + [f], store) ==
            Book(BooksOf(topics, log, store), f, OutcomeOf(topics, f, store(|log|)))
  {
    assert (log + [f])[..|log|] == log;
  }

  /** Published are the frames with that outcome, in order, and every counter is the number of frames
      with its outcome. */
  lemma {:induction false} BooksExactly(topics: seq<Topic>, log: seq<Frame>, store: nat -> bool)
    ensures var b, os := BooksOf(topics, log, store), Outcomes(topics, log, store);
            b.published == PublishedOf(log, os) && b.frames == Number(os, Published) &&
            b.unknown == Number(os, UnknownTopic) && b.wrong == Number(os, WrongDirection) &&
            b.wrongSize == Number(os, WrongSize)
    decreases |log|
  {
    if log != [] {
      var n := |log| - 1;
      BooksExactly(topics, log[..n], store);
      assert Outcomes(topics, log, store)[..n] == Outcomes(topics, log[..n], store);
    }
  }

  /** Successors that do not carry the next number of the wrapping counter. */
  function Gaps(log: seq<Frame>): nat {
    if |log| < 2 then 0
    else
      var n := |log| - 1;
      Gaps(log[..n]) + if log[n].seqNo == (log[n - 1].seqNo + 1) % 0x100 then 0 else 1
  }

  // ---- What the reference makes of the candidate in each state -----------------------------

  lemma OnSync(q: seq<byte>, link: Link)
    requires 1 <= |q| <= 2
    ensures Decide(q, link) == if |q| == 2 && q != SYNC then Skip(1, false) else Wait
  {
  }

  lemma OnHeader(h: seq<byte>, link: Link)
    requires |h| <= HEADER_TAIL
    ensures (SYNC + h)[2..] == h
    ensures Decide(SYNC + h, link) ==
            if |h| == HEADER_TAIL && (GetLe16(h[0], h[1]) == 0 || GetLe16(h[0], h[1]) > link.limit)
            then Skip(2, false) else Wait
  {
  }

  lemma OnPayload(h: seq<byte>, p: seq<byte>, link: Link)
    requires |h| == HEADER_TAIL && |p| <= GetLe16(h[0], h[1]) <= link.limit && GetLe16(h[0], h[1]) > 0
    ensures Decide(SYNC + h + p, link) == Wait
  {
  }

  lemma OnCrc(h: seq<byte>, p: seq<byte>, c: seq<byte>, link: Link)
    requires |h| == HEADER_TAIL && |p| == GetLe16(h[0], h[1]) && 0 < |p| <= link.limit && 1 <= |c| <= 2
    ensures (SYNC + h + p + c)[2..] == h + p + c
    ensures Decide(SYNC + h + p + c, link) ==
            if |c| == 1 then Wait
            else if link.check(h + p) != GetLe16(c[0], c[1]) then Skip(2, true)
            else Accept(OVERHEAD + |p|, Frame(GetLe16(h[2], h[3]), h[4], p))
  {
    var q := SYNC + h + p + c;
    if |c| == 2 {
      assert q[2..HEADER_SIZE + |p|] == h + p;
      assert q[HEADER_SIZE..HEADER_SIZE + |p|] == p;
    }
  }

  /** What one execution of the parser body comes to, by the reference's decision. */
  lemma AdvanceBy(c: Core, b: byte, link: Link, d: Decision)
    requires |c.pending| >= 1 && d == Decide(c.pending + [b], link) && !(d.Skip? && d.n == 1)
    ensures Advance(Next(link), c, b) ==
            match d
            case Wait => Kept(c.(pending := c.pending + [b]))
            case Accept(_, f) => Kept(c.(pending := [], log := c.log + [f]))
            case Skip(_, counted) =>
              Rejected(Core([], c.log, c.crcErrors + if counted then 1 else 0), (c.pending + [b])[2..])
  {
  }

  lemma HeaderAdvance(c: Core, b: byte, h: seq<byte>, link: Link)
    requires |c.pending| >= 2 && c.pending + [b] == SYNC + h && |h| <= HEADER_TAIL
    ensures Advance(Next(link), c, b) ==
            if |h| == HEADER_TAIL && (GetLe16(h[0], h[1]) == 0 || GetLe16(h[0], h[1]) > link.limit)
            then Rejected(Core([], c.log, c.crcErrors), h)
            else Kept(Core(SYNC + h, c.log, c.crcErrors))
  {
    OnHeader(h, link);
    AdvanceBy(c, b, link, Decide(SYNC + h, link));
  }

  lemma PayloadAdvance(c: Core, b: byte, h: seq<byte>, p: seq<byte>, link: Link)
    requires |c.pending| >= 2 && c.pending + [b] == SYNC + h + p
    requires |h| == HEADER_TAIL && |p| <= GetLe16(h[0], h[1]) <= link.limit && GetLe16(h[0], h[1]) > 0
    ensures Advance(Next(link), c, b) == Kept(Core(SYNC + h + p, c.log, c.crcErrors))
  {
    OnPayload(h, p, link);
    AdvanceBy(c, b, link, Wait);
  }

  lemma CrcAdvance(c: Core, b: byte, h: seq<byte>, p: seq<byte>, t: seq<byte>, link: Link)
    requires |c.pending| >= 2 && c.pending + [b] == SYNC + h + p + t
    requires |h| == HEADER_TAIL && |p| == GetLe16(h[0], h[1]) && 0 < |p| <= link.limit && 1 <= |t| <= 2
    ensures Advance(Next(link), c, b) ==
            if |t| == 1 then Kept(Core(SYNC + h + p + t, c.log, c.crcErrors))
            else if link.check(h + p) == GetLe16(t[0], t[1])
            then Kept(Core([], c.log + [Frame(GetLe16(h[2], h[3]), h[4], p)], c.crcErrors))
            else Rejected(Core([], c.log, c.crcErrors + 1), h + p + t)
  {
    OnCrc(h, p, t, link);
    AdvanceBy(c, b, link, Decide(SYNC + h + p + t, link));
  }

  /** The candidate turned down was turned down for its length. */
  predicate WasTooLong(c: Core, a: Advanced) {
    a.Rejected? && a.core.crcErrors == c.crcErrors
  }

  /** Headers turned down for their length, in a rescan and in a run. */
  function HeadersInReplay(next: Decider, c: Core, bytes: seq<byte>): nat
    decreases |bytes|
  {
    if bytes == [] then 0
    else
      var a := Advance(next, c, bytes[0]);
      (if WasTooLong(c, a) then 1 else 0) + HeadersInReplay(next, a.core, bytes[1..])
  }

  function HeadersInStep(next: Decider, c: Core, b: byte): nat {
    var a := Advance(next, c, b);
    (if WasTooLong(c, a) then 1 else 0) + if a.Rejected? then HeadersInReplay(next, a.core, a.tail) else 0
  }

  function HeadersInRun(next: Decider, c: Core, bytes: seq<byte>): nat
    decreases |bytes|
  {
    if bytes == [] then 0
    else HeadersInStep(next, c, bytes[0]) + HeadersInRun(next, Step(next, c, bytes[0]), bytes[1..])
  }

  /** What is counted is exactly a whole header whose length is none or beyond the limit. */
  lemma TooLongExactly(c: Core, b: byte, link: Link)
    requires Decide(c.pending, link).Wait?
    ensures WasTooLong(c, Advance(Next(link), c, b)) <==>
            |c.pending| == 7 &&
            (GetLe16(c.pending[2], c.pending[3]) == 0 || GetLe16(c.pending[2], c.pending[3]) > link.limit)
  {
    var q := c.pending + [b];
    if |c.pending| >= 2 { assert StartsWithSync(c.pending) && StartsWithSync(q); }
  }

  lemma {:induction false} HeadersConcat(next: Decider, c: Core, a: seq<byte>, b: seq<byte>)
    ensures HeadersInRun(next, c, a + b) == HeadersInRun(next, c, a) + HeadersInRun(next, Run(next, c, a), b)
    decreases |a|
  {
    if a == [] {
      assert a + b == b;
    } else {
      assert (a + b)[1..] == a[1..] + b;
      HeadersConcat(next, Step(next, c, a[0]), a[1..], b);
    }
  }

  lemma {:induction false} HeadersInReplayConcat(next: Decider, c: Core, a: seq<byte>, b: seq<byte>)
    ensures HeadersInReplay(next, c, a + b) ==
            HeadersInReplay(next, c, a) + HeadersInReplay(next, Replay(next, c, a), b)
    decreases |a|
  {
    if a == [] {
      assert a + b == b;
    } else {
      assert (a + b)[1..] == a[1..] + b;
      HeadersInReplayConcat(next, Advance(next, c, a[0]).core, a[1..], b);
    }
  }

  lemma {:induction false} NoneWhileWaiting(next: Decider, c: Core, q: seq<byte>)
    requires c.pending == [] && (q != [] ==> q[0] == SYNC0)
    requires forall k :: 0 < k <= |q| ==> next(q[..k]).Wait?
    ensures HeadersInRun(next, c, q) == 0
    decreases |q|
  {
    if q != [] {
      var n := |q| - 1;
      var p, b := q[..n], q[n];
      forall k | 0 < k <= n ensures next(p[..k]).Wait? {
        assert p[..k] == q[..k];
      }
      NoneWhileWaiting(next, c, p);
      UndecidedPilesUp(next, c, p);
      assert q == p + [b] && q[..|q|] == q && [b][1..] == [];
      HeadersConcat(next, c, p, [b]);
    }
  }

  /** An idle receiver counts such a header once, and on top of it those found when its bytes are scanned
      again. */
  lemma BadHeaderIsCounted(c: Core, h: seq<byte>, link: Link)
    requires c.pending == [] && |h| == HEADER_TAIL
    requires GetLe16(h[0], h[1]) == 0 || GetLe16(h[0], h[1]) > link.limit
    ensures HeadersInRun(Next(link), c, SYNC + h) == 1 + HeadersInReplay(Next(link), c, h)
  {
    var next, p := Next(link), SYNC + h[..5];
    forall k | 0 < k <= |p| ensures next(p[..k]).Wait? {
    }
    NoneWhileWaiting(next, c, p);
    UndecidedPilesUp(next, c, p);
    assert SYNC + h == p + [h[5]] && [h[5]][1..] == [];
    HeadersConcat(next, c, p, [h[5]]);
    HeaderAdvance(c.(pending := p), h[5], h, link);
  }

  class SerialReceiver {
    const link: Link
    const topics: seq<Topic>
    /** What the topic stores answer to the frames handed to them, one after another. */
    const store: nat -> bool
    const header: array<byte>
    const payload: array<byte>
    const crc: array<byte>
    var state: RxState
    var pos: nat
    var len: u16
    var topicId: u16
    var replaying: bool
    var haveLast: bool
    var lastSeq: byte
    var rxFrames: nat
    var rxCrcErrors: nat
    var rxUnknownTopic: nat
    var rxWrongDirection: nat
    var rxBadLength: nat
    var rxSeqGaps: nat
    var handed: nat
    /** Frames that passed the CRC, in order; what went out to the topics; headers turned down for their
        length; executions of the parser body. */
    ghost var log: seq<Frame>
    ghost var published: seq<Frame>
    ghost var badHeaders: nat
    ghost var executions: nat

    /** The fixed buffers are there and apart. */
    ghost predicate Buffers() {
      header.Length == HEADER_TAIL && payload.Length == link.limit && crc.Length == TRAILER_SIZE &&
      header != payload && header != crc && payload != crc
    }

    /** Every index the parser is about to use is in range. */
    ghost predicate Positions()
      reads `state, `pos, `len, `topicId, header
    {
      Buffers() &&
      match state
      case RxSync0 => true
      case RxSync1 => true
      case RxHeader => pos < HEADER_TAIL
      case RxPayload => pos < len <= link.limit && HeaderRead()
      case RxCrc => pos < TRAILER_SIZE && 0 < len <= link.limit && HeaderRead()
    }

    /** Length and topic are those of the buffered header. */
    ghost predicate HeaderRead()
      requires header.Length == HEADER_TAIL
      reads `len, `topicId, header
    {
      len == GetLe16(header[0], header[1]) && topicId == GetLe16(header[2], header[3])
    }

    /** The counters tell what happened to every frame that passed the CRC. */
    ghost predicate Counters()
      reads `log, `published, `badHeaders, `handed, `rxFrames, `rxUnknownTopic, `rxWrongDirection, `rxBadLength
      reads `rxSeqGaps, `haveLast, `lastSeq
    {
      handed == |log| && Sequence(log) && rxBadLength >= badHeaders &&
      Books(published, rxFrames, rxUnknownTopic, rxWrongDirection, rxBadLength - badHeaders) ==
      BooksOf(topics, log, store)
    }

    /** The gap counter and the last number are those of the given frames. */
    ghost predicate Sequence(frames: seq<Frame>)
      reads `rxSeqGaps, `haveLast, `lastSeq
    {
      rxSeqGaps == Gaps(frames) &&
      haveLast == (frames != []) && (haveLast ==> lastSeq == frames[|frames| - 1].seqNo)
    }

    ghost predicate Valid()
      reads `state, `pos, `len, `topicId, header, `log, `published, `badHeaders, `handed
      reads `rxFrames, `rxUnknownTopic, `rxWrongDirection, `rxBadLength, `rxSeqGaps, `haveLast, `lastSeq
    {
      Positions() && Counters()
    }

    /** The bytes of the candidate being assembled. */
    ghost function Pending(): seq<byte>
      requires Positions()
      reads `state, `pos, `len, `topicId, header, payload, crc
    {
      match state
      case RxSync0 => []
      case RxSync1 => [SYNC0]
      case RxHeader => SYNC + header[..pos]
      case RxPayload => SYNC + header[..] + payload[..pos]
      case RxCrc => SYNC + header[..] + payload[..len] + crc[..pos]
    }

    ghost function Value(): Core
      requires Positions()
      reads `state, `pos, `len, `topicId, `log, `rxCrcErrors, header, payload, crc
    {
      Core(Pending(), log, rxCrcErrors)
    }

    constructor (link: Link, topics: seq<Topic>, store: nat -> bool)
      ensures Valid() && fresh(header) && fresh(payload) && fresh(crc)
      ensures this.link == link && this.topics == topics && this.store == store
      ensures Value() == IDLE && !replaying && executions == 0 && badHeaders == 0 && published == []
    {
      this.link, this.topics, this.store := link, topics, store;
      header := new byte[HEADER_TAIL];
      payload := new byte[link.limit];
      crc := new byte[TRAILER_SIZE];
      state, pos, len, topicId, replaying := RxSync0, 0, 0, 0, false;
      haveLast, lastSeq := false, 0;
      rxFrames, rxCrcErrors, rxUnknownTopic, rxWrongDirection, rxBadLength, rxSeqGaps := 0, 0, 0, 0, 0, 0;
      handed := 0;
      log, published, badHeaders, executions := [], [], 0, 0;
    }

    /** Count a gap against the frame before, for frames that passed the CRC. */
    method TrackSequence(ghost f: Frame, seqNo: byte)
      requires Sequence(log) && f.seqNo == seqNo
      modifies `rxSeqGaps, `lastSeq, `haveLast
      ensures Sequence(log + [f]) && haveLast && lastSeq == seqNo
      ensures rxSeqGaps == old(rxSeqGaps) + if old(haveLast) && seqNo != (old(lastSeq) + 1) % 256 then 1 else 0
    {
      if haveLast && seqNo != (lastSeq + 1) % 0x100 {
        rxSeqGaps := rxSeqGaps + 1;
      }
      lastSeq := seqNo;
      haveLast := true;
      assert (log + [f])[..|log|] == log;
    }

    /** Hand the payload to its topic, or count why not. */
    method Deliver(f: Frame)
      modifies `handed, `rxFrames, `rxUnknownTopic, `rxWrongDirection, `rxBadLength, `published
      ensures handed == old(handed) + 1
      ensures Books(published, rxFrames, rxUnknownTopic, rxWrongDirection, rxBadLength) ==
              Book(old(Books(published, rxFrames, rxUnknownTopic, rxWrongDirection, rxBadLength)), f,
                   OutcomeOf(topics, f, store(old(handed))))
    {
      var stored := store(handed);
      handed := handed + 1;
      var i := TopicById(topics, f.topicId);
      if i == |topics| {
        rxUnknownTopic := rxUnknownTopic + 1;
        return;
      }
      if !topics[i].rx || !topics[i].hasPublisher {
        rxWrongDirection := rxWrongDirection + 1;
        return;
      }
      if |f.payload| != topics[i].payloadSize || !stored {
        rxBadLength := rxBadLength + 1;
        return;
      }
      published := published + [f];
      rxFrames := rxFrames + 1;
    }

    /** One received byte, or one byte of a rescan. */
    method RxByte(b: byte)
      requires Valid()
      modifies this, header, payload, crc
      ensures Valid() && replaying == old(replaying)
      ensures ByteDone(old(Value()), old(executions), old(badHeaders), b)
      decreases if replaying then 0 else 1, 3
    {
      match state {
        case RxSync0 =>
          SyncByte(b);
        case RxSync1 =>
          SyncByte(b);
        case RxHeader =>
          HeaderByte(b);
        case RxPayload =>
          PayloadByte(b);
        case RxCrc =>
          CrcByte(b);
      }
    }

    method SyncByte(b: byte)
      requires Positions() && (state == RxSync0 || state == RxSync1)
      modifies `executions, `pos, `state
      ensures Positions() && executions == old(executions) + 1
      ensures Advance(Next(link), old(Value()), b) == Kept(Value())
    {
      executions := executions + 1;
      if state == RxSync0 {
        OnSync([] + [b], link);
        if b == SYNC0 {
          state := RxSync1;
        }
      } else {
        OnSync([SYNC0] + [b], link);
        if b == SYNC1 {
          state := RxHeader;
          pos := 0;
          assert header[..0] == [];
        } else if b != SYNC0 {
          state := RxSync0;
        }
      }
    }

    /** The receiver has done with b what the specification says, from value c on. */
    ghost predicate ByteDone(c: Core, before: nat, headers: nat, b: byte)
      requires Positions()
      reads this, header, payload, crc
    {
      var a := Advance(Next(link), c, b);
      Done(a, before, headers + if WasTooLong(c, a) then 1 else 0)
    }

    /** One execution of the parser body came to a, rescan included; `headers` counts its own. */
    ghost predicate Done(a: Advanced, before: nat, headers: nat)
      requires Positions()
      reads this, header, payload, crc
    {
      if replaying || a.Kept? then Value() == a.core && executions == before + 1 && badHeaders == headers
      else Value() == Replay(Next(link), a.core, a.tail) && executions == before + 1 + |a.tail| &&
           badHeaders == headers + HeadersInReplay(Next(link), a.core, a.tail)
    }

    method HeaderByte(b: byte)
      requires Valid() && state == RxHeader
      modifies this, header, payload, crc
      ensures Valid() && replaying == old(replaying)
      ensures ByteDone(old(Value()), old(executions), old(badHeaders), b)
      decreases if replaying then 0 else 1, 2
    {
      ghost var c, before := Value(), header[..pos];
      executions := executions + 1;
      header[pos] := b;
      pos := pos + 1;
      assert header[..pos] == before + [b];
      assert c.pending + [b] == SYNC + header[..pos];
      if pos < HEADER_TAIL {
        HeaderAdvance(c, b, header[..pos], link);
        return;
      }
      assert header[..pos] == header[..];
      HeaderAdvance(c, b, header[..], link);
      HeaderComplete(Advance(Next(link), c, b));
    }

    method HeaderComplete(ghost a: Advanced)
      requires Buffers() && Counters() && executions >= 1
      requires var n := GetLe16(header[0], header[1]);
               a == if n == 0 || n > link.limit then Rejected(Core([], log, rxCrcErrors), header[..])
                    else Kept(Core(SYNC + header[..], log, rxCrcErrors))
      modifies this, header, payload, crc
      ensures Valid() && replaying == old(replaying)
      ensures Done(a, old(executions) - 1, old(badHeaders) + if a.Rejected? then 1 else 0)
      decreases if replaying then 0 else 1, 1
    {
      len := GetLe16(header[0], header[1]);
      topicId := GetLe16(header[2], header[3]);
      if len == 0 || len > link.limit {
        RejectHeader();
      } else {
        EnterPayload();
      }
    }

    method RejectHeader()
      requires Buffers() && Counters() && executions >= 1
      modifies this, header, payload, crc
      ensures Valid() && replaying == old(replaying)
      ensures Done(old(Rejected(Core([], log, rxCrcErrors), header[..])), old(executions) - 1, old(badHeaders) + 1)
      decreases if replaying then 0 else 1, 1, 0
    {
      rxBadLength := rxBadLength + 1;
      badHeaders := badHeaders + 1;
      RxReplay(header[..]);
    }

    method EnterPayload()
      requires Buffers() && Counters() && 0 < len <= link.limit && HeaderRead()
      modifies `pos, `state
      ensures Valid() && Value() == Core(SYNC + header[..], log, rxCrcErrors)
    {
      pos := 0;
      state := RxPayload;
      assert SYNC + header[..] + payload[..0] == SYNC + header[..];
    }

    method PayloadByte(b: byte)
      requires Positions() && state == RxPayload
      modifies `executions, `pos, `state, payload
      ensures Positions() && executions == old(executions) + 1
      ensures Advance(Next(link), old(Value()), b) == Kept(Value())
    {
      ghost var c, before := Value(), payload[..pos];
      executions := executions + 1;
      payload[pos] := b;
      pos := pos + 1;
      assert payload[..pos] == before + [b];
      assert c.pending + [b] == SYNC + header[..] + payload[..pos];
      PayloadAdvance(c, b, header[..], payload[..pos], link);
      if pos >= len {
        pos := 0;
        state := RxCrc;
        assert SYNC + header[..] + payload[..len] + crc[..0] == SYNC + header[..] + payload[..len];
      }
    }

    method CrcByte(b: byte)
      requires Valid() && state == RxCrc
      modifies this, header, payload, crc
      ensures Valid() && replaying == old(replaying)
      ensures ByteDone(old(Value()), old(executions), old(badHeaders), b)
      decreases if replaying then 0 else 1, 2
    {
      ghost var c, before := Value(), crc[..pos];
      executions := executions + 1;
      crc[pos] := b;
      pos := pos + 1;
      assert crc[..pos] == before + [b];
      assert c.pending + [b] == SYNC + header[..] + payload[..len] + crc[..pos];
      if pos < TRAILER_SIZE {
        CrcAdvance(c, b, header[..], payload[..len], crc[..pos], link);
        return;
      }
      CrcLast(c, b);
    }

    method CrcLast(ghost c: Core, b: byte)
      requires Buffers() && Counters() && 0 < len <= link.limit && HeaderRead() && executions >= 1
      requires c.log == log && c.crcErrors == rxCrcErrors && |c.pending| >= 2
      requires c.pending + [b] == SYNC + header[..] + payload[..len] + crc[..TRAILER_SIZE]
      modifies this, header, payload, crc
      ensures Valid() && replaying == old(replaying)
      ensures Done(Advance(Next(link), c, b), old(executions) - 1, old(badHeaders))
      ensures !WasTooLong(c, Advance(Next(link), c, b))
      decreases if replaying then 0 else 1, 1, 1
    {
      assert crc[..TRAILER_SIZE] == crc[..];
      CrcAdvance(c, b, header[..], payload[..len], crc[..], link);
      CrcComplete(Advance(Next(link), c, b));
    }

    method CrcComplete(ghost a: Advanced)
      requires Buffers() && Counters() && 0 < len <= link.limit && HeaderRead() && executions >= 1
      requires a == if link.check(header[..] + payload[..len]) == GetLe16(crc[0], crc[1])
                    then Kept(Core([], log + [Frame(topicId, header[4], payload[..len])], rxCrcErrors))
                    else Rejected(Core([], log, rxCrcErrors + 1), header[..] + payload[..len] + crc[..])
      modifies this, header, payload, crc
      ensures Valid() && replaying == old(replaying)
      ensures Done(a, old(executions) - 1, old(badHeaders))
      decreases if replaying then 0 else 1, 1, 0
    {
      if link.check(header[..] + payload[..len]) == GetLe16(crc[0], crc[1]) {
        AcceptFrame(Frame(topicId, header[4], payload[..len]));
      } else {
        rxCrcErrors := rxCrcErrors + 1;
        RxReplay(header[..] + payload[..len] + crc[..]);
      }
    }

    /** Back to looking for the first sync byte. */
    method Reset()
      requires Buffers()
      modifies `state, `pos
      ensures Positions() && Pending() == []
    {
      state := RxSync0;
      pos := 0;
    }

    method AcceptFrame(f: Frame)
      requires Buffers() && Counters()
      modifies `state, `pos, `rxSeqGaps, `lastSeq, `haveLast, `log, `handed
      modifies `rxFrames, `rxUnknownTopic, `rxWrongDirection, `rxBadLength, `published
      ensures Valid() && replaying == old(replaying) && executions == old(executions)
      ensures Value() == Core([], old(log) + [f], old(rxCrcErrors)) && badHeaders == old(badHeaders)
    {
      CountFrame(f);
      Reset();
    }

    method CountFrame(f: Frame)
      requires Counters()
      modifies `rxSeqGaps, `lastSeq, `haveLast, `log, `handed
      modifies `rxFrames, `rxUnknownTopic, `rxWrongDirection, `rxBadLength, `published
      ensures Counters() && log == old(log) + [f]
    {
      BooksGrow(topics, log, store, f);
      TrackSequence(f, f.seqNo);
      Deliver(f);
      log := log + [f];
    }

    /** Rescan the bytes of a rejected candidate, one level deep only. */
    method RxReplay(bytes: seq<byte>)
      requires Buffers() && Counters()
      modifies this, header, payload, crc
      ensures Valid() && replaying == old(replaying)
      ensures var c := Core([], old(log), old(rxCrcErrors));
              if replaying then Value() == c && executions == old(executions) && badHeaders == old(badHeaders)
              else Value() == Replay(Next(link), c, bytes) && executions == old(executions) + |bytes| &&
                   badHeaders == old(badHeaders) + HeadersInReplay(Next(link), c, bytes)
      decreases if replaying then 0 else 1, 0
    {
      Reset();
      if replaying {
        return;
      }
      ReplayAll(bytes);
    }

    method ReplayAll(bytes: seq<byte>)
      requires Valid() && !replaying
      modifies this, header, payload, crc
      ensures Valid() && !replaying
      ensures Value() == Replay(Next(link), old(Value()), bytes) && executions == old(executions) + |bytes|
      ensures badHeaders == old(badHeaders) + HeadersInReplay(Next(link), old(Value()), bytes)
      decreases if replaying then 0 else 1, 0, 0
    {
      replaying := true;
      ghost var c := Value();
      for i := 0 to |bytes|
        invariant Valid() && replaying
        invariant Replay(Next(link), Value(), bytes[i..]) == Replay(Next(link), c, bytes)
        invariant executions == old(executions) + i
        invariant badHeaders + HeadersInReplay(Next(link), Value(), bytes[i..]) ==
                  old(badHeaders) + HeadersInReplay(Next(link), c, bytes)
      {
        ReplayStep(Next(link), Value(), bytes, i);
        RxByte(bytes[i]);
      }
      replaying := false;
    }

    /** Drain received bytes into the parser: the value is the run of the specification, and no
        byte costs more than one candidate's worth of executions of the parser body. */
    method RxDrain(bytes: seq<byte>)
      requires Valid() && !replaying
      modifies this, header, payload, crc
      ensures Valid() && !replaying
      ensures Value() == Run(Next(link), old(Value()), bytes)
      ensures badHeaders == old(badHeaders) + HeadersInRun(Next(link), old(Value()), bytes)
      ensures executions <= old(executions) + (OVERHEAD - 1 + link.limit) * |bytes|
    {
      ghost var c := Value();
      for i := 0 to |bytes|
        invariant Valid() && !replaying
        invariant Run(Next(link), Value(), bytes[i..]) == Run(Next(link), c, bytes)
        invariant badHeaders + HeadersInRun(Next(link), Value(), bytes[i..]) ==
                  old(badHeaders) + HeadersInRun(Next(link), c, bytes)
        invariant executions <= old(executions) + (OVERHEAD - 1 + link.limit) * i
      {
        assert bytes[i..][0] == bytes[i] && bytes[i..][1..] == bytes[i + 1..];
        TailIsShort(Next(link), Value(), bytes[i]);
        RxByte(bytes[i]);
        assert (OVERHEAD - 1 + link.limit) * (i + 1) == (OVERHEAD - 1 + link.limit) * i + OVERHEAD - 1 + link.limit;
      }
    }
  }

  lemma ReplayStep(next: Decider, c: Core, bytes: seq<byte>, i: nat)
    requires i < |bytes|
    ensures var a := Advance(next, c, bytes[i]);
            Replay(next, c, bytes[i..]) == Replay(next, a.core, bytes[i + 1..]) &&
            HeadersInReplay(next, c, bytes[i..]) ==
            (if WasTooLong(c, a) then 1 else 0) + HeadersInReplay(next, a.core, bytes[i + 1..])
  {
    assert bytes[i..][0] == bytes[i] && bytes[i..][1..] == bytes[i + 1..];
  }

  lemma TailIsShort(next: Decider, c: Core, b: byte)
    ensures Advance(next, c, b).Rejected? ==> |Advance(next, c, b).tail| == |c.pending| - 1
  {
  }
}
