/** The on-board GNSS reader: a byte-at-a-time UBX parser in fixed buffers, its counters, and the
    fix it publishes. */
module GnssReader {
  import opened Wrappers
  import opened Bytes
  import opened Ubx
  import opened Calendar

  datatype RxState = RxSync1 | RxSync2 | RxHeader | RxPayload | RxChecksum

  // ---- What the events count ---------------------------------------------------------------

  predicate IsNavPvt(m: Message) {
    m.cls == CLASS_NAV && m.id == ID_NAV_PVT
  }

  predicate IsSolution(m: Message) {
    IsNavPvt(m) && |m.payload| == NAV_PVT_SIZE
  }

  /** The payloads that are position solutions, in order of arrival. */
  function Solutions(es: seq<Event>): seq<seq<byte>> {
    if es == [] then []
    else
      var e := es[|es| - 1];
      Solutions(es[..|es| - 1]) + if e.Good? && IsSolution(e.message) then [e.message.payload] else []
  }

  datatype Counters = Counters(
    checksumErrors: nat, oversize: nat, frames: nat, otherFrames: nat, badLength: nat, samples: nat)

  const NOTHING := Counters(0, 0, 0, 0, 0, 0)

  function Counted(c: Counters, e: Event): Counters {
    match e
    case BadChecksum => c.(checksumErrors := c.checksumErrors + 1)
    case Oversize => c.(oversize := c.oversize + 1)
    case Good(m) =>
      if !IsNavPvt(m) then c.(frames := c.frames + 1, otherFrames := c.otherFrames + 1)
      else if |m.payload| != NAV_PVT_SIZE then c.(frames := c.frames + 1, badLength := c.badLength + 1)
      else c.(frames := c.frames + 1, samples := c.samples + 1)
  }

  function CountAll(es: seq<Event>): Counters {
    if es == [] then NOTHING else Counted(CountAll(es[..|es| - 1]), es[|es| - 1])
  }

  /** Nothing is counted twice and nothing is lost: every candidate is bad, oversize or a frame,
      and every frame is another message, of a bad length, or a sample. */
  lemma {:induction false} Conservation(es: seq<Event>)
    ensures var c := CountAll(es);
            c.checksumErrors + c.oversize + c.frames == |es| &&
            c.otherFrames + c.badLength + c.samples == c.frames &&
            c.samples == |Solutions(es)|
  {
    if es != [] { Conservation(es[..|es| - 1]); }
  }

  /** Each counter by what it counts, event by event: a bad checksum, a frame too long, and of the
      frames those of another class or id, those of another length than 92, and the solutions. */
  lemma CountsExactly(es: seq<Event>, e: Event)
    ensures CountAll([]) == Counters(0, 0, 0, 0, 0, 0) && Solutions([]) == []
    ensures var c, d := CountAll(es), CountAll(es + [e]);
            d.checksumErrors == c.checksumErrors + (if e == BadChecksum then 1 else 0) &&
            d.oversize == c.oversize + (if e == Oversize then 1 else 0) &&
            d.frames == c.frames + (if e.Good? then 1 else 0)
    ensures e.Good? ==>
              var c, d, m := CountAll(es), CountAll(es + [e]), e.message;
              var pvt, whole := m.cls == 0x01 && m.id == 0x07, |m.payload| == 92;
              d.otherFrames == c.otherFrames + (if pvt then 0 else 1) &&
              d.badLength == c.badLength + (if pvt && !whole then 1 else 0) &&
              d.samples == c.samples + (if pvt && whole then 1 else 0) &&
              Solutions(es + [e]) == Solutions(es) + if pvt && whole then [m.payload] else []
    ensures !e.Good? ==>
              var c, d := CountAll(es), CountAll(es + [e]);
              d.otherFrames == c.otherFrames && d.badLength == c.badLength && d.samples == c.samples &&
              Solutions(es + [e]) == Solutions(es)
  {
    Last(es, e);
    assert Solutions(es) + [] == Solutions(es);
  }

  /** How many of the first n solutions the topic takes. */
  function Accepted(accepts: nat -> bool, n: nat): (c: nat)
    ensures c <= n
  {
    if n == 0 then 0 else Accepted(accepts, n - 1) + if accepts(n - 1) then 1 else 0
  }

  /** What the reader keeps besides its buffers: the statistics, and of the last fix its time stamp
      and its type. */
  datatype Books = Books(
    counters: Counters, published: nat, publishFailed: nat, lastTime: Option<nat>, lastType: FixType)

  predicate LastFixIs(b: Books, p: Solution) {
    b.lastTime == TimeUnixUs(p) && b.lastType == FixTypeFrom(p)
  }

  /** They are what the events come to. */
  ghost predicate Kept(b: Books, es: seq<Event>, decode: seq<byte> -> Solution, accepts: nat -> bool) {
    var sent := Solutions(es);
    b.counters == CountAll(es) && b.counters.samples == |sent| &&
    b.published == Accepted(accepts, |sent|) && b.published + b.publishFailed == |sent| &&
    if sent == [] then b.lastTime == None && b.lastType == NoFix else LastFixIs(b, decode(sent[|sent| - 1]))
  }

  lemma KeptByOther(
      b: Books, c: Counters, es: seq<Event>, e: Event, decode: seq<byte> -> Solution, accepts: nat -> bool)
    requires Kept(b, es, decode, accepts) && c == Counted(b.counters, e) && !(e.Good? && IsSolution(e.message))
    ensures Kept(b.(counters := c), es + [e], decode, accepts)
  {
    Last(es, e);
  }

  lemma KeptBySolution(
      b: Books, d: Books, es: seq<Event>, m: Message, decode: seq<byte> -> Solution, accepts: nat -> bool)
    requires Kept(b, es, decode, accepts) && IsSolution(m)
    requires d.counters == Counted(b.counters, Good(m)) && LastFixIs(d, decode(m.payload))
    requires d.published == b.published + if accepts(b.counters.samples) then 1 else 0
    requires d.publishFailed == b.publishFailed + if accepts(b.counters.samples) then 0 else 1
    ensures Kept(d, es + [Good(m)], decode, accepts)
  {
    Last(es, Good(m));
  }

  // ---- What one more byte adds -------------------------------------------------------------

  lemma Last(es: seq<Event>, e: Event)
    ensures CountAll(es + [e]) == Counted(CountAll(es), e)
    ensures Solutions(es + [e]) ==
            if e.Good? && IsSolution(e.message) then Solutions(es) + [e.message.payload] else Solutions(es)
  {
    assert (es + [e])[..|es|] == es;
    assert Solutions(es) + [] == Solutions(es);
  }

  lemma OneByte(q: seq<byte>, b: byte, limit: nat)
    requires q == [] || q == [PREAMBLE1]
    ensures var r := Parse(q + [b], limit);
            r.events == [] &&
            r.rest == if q != [] && b == PREAMBLE2 then PREAMBLE
                      else if b == PREAMBLE1 then [PREAMBLE1] else []
    decreases |q|
  {
    assert [b][1..] == [];
    if q == [] {
      assert q + [b] == [b];
    } else {
      OneByte([], b, limit);
      assert [] + [b] == [b] && (q + [b])[1..] == [b];
      assert b == PREAMBLE2 ==> q + [b] == PREAMBLE;
    }
  }

  lemma HeaderByte(h: seq<byte>, limit: nat)
    requires 1 <= |h| <= 4
    ensures Parse(PREAMBLE + h, limit) ==
            if |h| == 4 && GetLe16(h[2], h[3]) > limit then Parsed([Oversize], [])
            else Parsed([], PREAMBLE + h)
  {
    var s := PREAMBLE + h;
    assert |h| == 4 ==> PayloadLength(s) == GetLe16(h[2], h[3]) && s[HEADER..] == [];
  }

  lemma PayloadByte(h: seq<byte>, p: seq<byte>, limit: nat)
    requires |h| == 4 && |p| <= GetLe16(h[2], h[3]) <= limit
    ensures Parse(PREAMBLE + h + p, limit) == Parsed([], PREAMBLE + h + p)
  {
    assert PayloadLength(PREAMBLE + h + p) == GetLe16(h[2], h[3]);
  }

  lemma ChecksumByte(h: seq<byte>, p: seq<byte>, c: seq<byte>, limit: nat)
    requires |h| == 4 && |p| == GetLe16(h[2], h[3]) <= limit && 1 <= |c| <= 2
    ensures Parse(PREAMBLE + h + p + c, limit) ==
            if |c| == 1 then Parsed([], PREAMBLE + h + p + c)
            else Parsed([Judged(h, p, c[0], c[1])], [])
  {
    var s := PREAMBLE + h + p + c;
    assert PayloadLength(s) == |p|;
    if |c| == 2 {
      assert s[..|s|] == s && s[|s|..] == [];
      assert s[2..HEADER + |p|] == h + p && s[HEADER..HEADER + |p|] == p;
      FoldConcat(h, p, Sums(0, 0));
    }
  }

  /** The whole frame as the program judges it, header first and payload second. */
  function Judged(h: seq<byte>, p: seq<byte>, a: byte, b: byte): Event
    requires |h| == 4
  {
    if Fold(p, Checksum(h)) == Sums(a, b) then Good(Message(h[0], h[1], p)) else BadChecksum
  }

  /** A navigation solution sent to a reader that is looking for a preamble is counted as a sample, and
      nothing else is counted. */
  lemma SolutionIsCounted(s: seq<byte>, m: Message, limit: nat)
    requires |Parse(s, limit).rest| <= 1 && m.cls == 0x01 && m.id == 0x07 && |m.payload| == 92 <= limit
    ensures var es, now := Parse(s, limit).events, Parse(s + Encode(m), limit).events;
            var c := CountAll(es);
            now == es + [Good(m)] && Solutions(now) == Solutions(es) + [m.payload] &&
            CountAll(now) == c.(frames := c.frames + 1, samples := c.samples + 1)
  {
    var rest := Parse(s, limit).rest;
    ParseConcat(s, Encode(m), limit);
    QuietIsDropped(rest, Encode(m), limit);
    ParseEncoded(m, [], limit);
    assert Encode(m) + [] == Encode(m);
    Last(Parse(s, limit).events, Good(m));
  }

  class UbxReader {
    const limit: nat
    /** The layout of a navigation solution; this model does not look inside it. */
    const decode: seq<byte> -> Solution
    /** Whether the topic takes the k-th fix. */
    const accepts: nat -> bool
    const header: array<byte>
    const payload: array<byte>
    const checksum: array<byte>
    var state: RxState
    var pos: nat
    var len: nat
    var books: Books
    ghost var stream: seq<byte>
    ghost var events: seq<Event>
    ghost var pending: seq<byte>

    ghost predicate Shape()
      reads this
    {
      header.Length == 4 && payload.Length == limit && checksum.Length == 2 &&
      header != payload && header != checksum && payload != checksum
    }

    ghost predicate InRange()
      reads this, header
      requires Shape()
    {
      match state
      case RxSync1 => true
      case RxSync2 => true
      case RxHeader => pos < 4
      case RxPayload => pos < len <= limit && len == GetLe16(header[2], header[3])
      case RxChecksum => pos < 2 && len <= limit && len == GetLe16(header[2], header[3])
    }

    /** The bytes of the candidate under way, as the buffers hold them. */
    ghost function Held(): seq<byte>
      reads this, header, payload, checksum
      requires Shape() && InRange()
    {
      match state
      case RxSync1 => []
      case RxSync2 => [PREAMBLE1]
      case RxHeader => PREAMBLE + header[..pos]
      case RxPayload => PREAMBLE + header[..] + payload[..pos]
      case RxChecksum => PREAMBLE + header[..] + payload[..len] + checksum[..pos]
    }

    ghost predicate Accounted()
      reads this
    {
      Kept(books, events, decode, accepts)
    }

    ghost predicate Sane()
      reads this, header, payload, checksum
    {
      Parsing() && Accounted()
    }

    ghost predicate Parsing()
      reads this, header, payload, checksum
    {
      Shape() && InRange() && pending == Held()
    }

    /** After any stream the reader holds what reading the stream from its front gives. */
    ghost predicate Valid()
      reads this, header, payload, checksum
    {
      Sane() && Parse(stream, limit) == Parsed(events, pending)
    }

    constructor (limit: nat, decode: seq<byte> -> Solution, accepts: nat -> bool)
      ensures Valid() && fresh(header) && fresh(payload) && fresh(checksum)
      ensures this.limit == limit && this.decode == decode && this.accepts == accepts
      ensures stream == [] && events == []
    {
      this.limit, this.decode, this.accepts := limit, decode, accepts;
      header, payload, checksum := new byte[4], new byte[limit], new byte[2];
      state, pos, len, books := RxSync1, 0, 0, Books(NOTHING, 0, 0, None, NoFix);
      stream, events, pending := [], [], [];
    }

    /** Stores the fix and hands it to the topic, which may refuse it. */
    method Publish(m: Message)
      requires Accounted() && IsSolution(m)
      modifies this`books, this`events
      ensures Accounted() && events == old(events) + [Good(m)]
      ensures LastFixIs(books, decode(m.payload))
      ensures var taken := accepts(old(books.counters.samples));
              books.published == old(books.published) + (if taken then 1 else 0) &&
              books.publishFailed == old(books.publishFailed) + if taken then 0 else 1
    {
      var c := books.counters;
      var p := decode(m.payload);
      var taken := accepts(c.samples);
      var now := Books(c.(frames := c.frames + 1, samples := c.samples + 1),
                       books.published + (if taken then 1 else 0), books.publishFailed + (if taken then 0 else 1),
                       TimeUnixUs(p), FixTypeFrom(p));
      KeptBySolution(books, now, events, m, decode, accepts);
      books, events := now, events + [Good(m)];
    }

    method CountOther(m: Message)
      requires Accounted() && !IsSolution(m)
      modifies this`books, this`events
      ensures Accounted() && events == old(events) + [Good(m)]
    {
      var c := books.counters;
      c := c.(frames := c.frames + 1);
      if !IsNavPvt(m) {
        c := c.(otherFrames := c.otherFrames + 1);
      } else {
        c := c.(badLength := c.badLength + 1);
      }
      KeptByOther(books, c, events, Good(m), decode, accepts);
      books, events := books.(counters := c), events + [Good(m)];
    }

    method Reject(e: Event)
      requires Accounted() && !e.Good?
      modifies this`books, this`events
      ensures Accounted() && events == old(events) + [e]
    {
      var c := books.counters;
      if e == Oversize {
        c := c.(oversize := c.oversize + 1);
      } else {
        c := c.(checksumErrors := c.checksumErrors + 1);
      }
      KeptByOther(books, c, events, e, decode, accepts);
      books, events := books.(counters := c), events + [e];
    }

    /** Judges a whole frame and counts it. */
    method FrameComplete()
      requires Shape() && Accounted() && len <= limit
      modifies this`books, this`events
      ensures Accounted()
      ensures events == old(events) + [Judged(header[..], payload[..len], checksum[0], checksum[1])]
    {
      var s := AddToChecksum(header[..], Sums(0, 0));
      s := AddToChecksum(payload[..len], s);
      var m := Message(header[0], header[1], payload[..len]);
      if s != Sums(checksum[0], checksum[1]) {
        Reject(BadChecksum);
      } else if IsSolution(m) {
        Publish(m);
      } else {
        CountOther(m);
      }
    }

    /** What the byte adds, by the state the parser is in. */
    ghost function Step(b: byte): Parsed
      reads this, header, payload, checksum
      requires Shape() && InRange()
    {
      match state
      case RxSync1 => Parsed([], if b == PREAMBLE1 then [PREAMBLE1] else [])
      case RxSync2 =>
        Parsed([], if b == PREAMBLE2 then PREAMBLE else if b == PREAMBLE1 then [PREAMBLE1] else [])
      case RxHeader =>
        var h := header[..pos] + [b];
        if |h| == 4 && GetLe16(h[2], h[3]) > limit then Parsed([Oversize], []) else Parsed([], PREAMBLE + h)
      case RxPayload => Parsed([], PREAMBLE + header[..] + (payload[..pos] + [b]))
      case RxChecksum =>
        if pos == 0 then Parsed([], PREAMBLE + header[..] + payload[..len] + (checksum[..pos] + [b]))
        else Parsed([Judged(header[..], payload[..len], checksum[0], b)], [])
    }

    method StartBody()
      requires Shape() && len == GetLe16(header[2], header[3]) <= limit
      modifies this`state, this`pos, this`pending
      ensures Parsing() && pending == PREAMBLE + header[..]
    {
      pos, pending := 0, PREAMBLE + header[..];
      assert payload[..0] == [] && checksum[..0] == [] && pending + [] == pending;
      state := if len == 0 then RxChecksum else RxPayload;
    }

    method StoreHeader(b: byte) returns (tooLong: bool)
      requires Parsing() && state == RxHeader
      modifies header, this`state, this`pos, this`len, this`pending
      ensures Parsing()
      ensures var h := old(header[..pos]) + [b];
              tooLong == (|h| == 4 && GetLe16(h[2], h[3]) > limit) &&
              pending == if tooLong then [] else PREAMBLE + h
    {
      header[pos] := b;
      pos := pos + 1;
      tooLong := false;
      assert header[..pos] == old(header[..pos]) + [b];
      if pos < 4 {
        pending := PREAMBLE + header[..pos];
        return;
      }
      assert header[..4] == header[..];
      len := GetLe16(header[2], header[3]);
      if len > limit {
        tooLong, state, pending := true, RxSync1, [];
      } else {
        StartBody();
      }
    }

    method OnHeader(b: byte)
      requires Sane() && state == RxHeader
      modifies header, this`state, this`pos, this`len, this`books, this`events, this`pending
      ensures Sane()
      ensures events == old(events) + old(Step(b)).events && pending == old(Step(b)).rest
    {
      var tooLong := StoreHeader(b);
      if tooLong { Reject(Oversize); } else { assert events + [] == events; }
    }

    method OnPayload(b: byte)
      requires Parsing() && state == RxPayload
      modifies payload, this`state, this`pos, this`pending
      ensures Parsing()
      ensures old(Step(b)).events == [] && pending == old(Step(b)).rest
    {
      payload[pos] := b;
      pos := pos + 1;
      assert payload[..pos] == old(payload[..pos]) + [b];
      pending := PREAMBLE + header[..] + payload[..pos];
      if pos >= len {
        pos := 0;
        state := RxChecksum;
        assert pending == PREAMBLE + header[..] + payload[..len] + checksum[..0];
      }
    }

    method OnChecksum(b: byte)
      requires Sane() && state == RxChecksum
      modifies checksum, this`state, this`pos, this`pending
      modifies this`books, this`events
      ensures Sane()
      ensures events == old(events) + old(Step(b)).events && pending == old(Step(b)).rest
    {
      checksum[pos] := b;
      pos := pos + 1;
      assert checksum[..pos] == old(checksum[..pos]) + [b];
      if pos < 2 {
        pending := PREAMBLE + header[..] + payload[..len] + checksum[..pos];
        return;
      }
      Finish();
    }

    method Finish()
      requires Shape() && Accounted() && len <= limit
      modifies this`state, this`pos, this`pending
      modifies this`books, this`events
      ensures Sane() && pending == []
      ensures events == old(events + [Judged(header[..], payload[..len], checksum[0], checksum[1])])
    {
      FrameComplete();
      StartOver();
    }

    method StartOver()
      requires Shape()
      modifies this`state, this`pos, this`pending
      ensures Parsing() && pending == []
    {
      state, pos, pending := RxSync1, 0, [];
    }

    method OnSync(b: byte)
      requires Parsing() && (state == RxSync1 || state == RxSync2)
      modifies this`state, this`pos, this`pending
      ensures Parsing()
      ensures old(Step(b)).events == [] && pending == old(Step(b)).rest
    {
      if state == RxSync1 {
        if b == PREAMBLE1 { state := RxSync2; }
      } else if b == PREAMBLE2 {
        state, pos := RxHeader, 0;
        assert PREAMBLE + header[..0] == PREAMBLE;
      } else if b != PREAMBLE1 {
        state := RxSync1;
      }
      pending := Held();
    }

    lemma StepIsParse(b: byte)
      requires Sane()
      ensures Parse(pending + [b], limit) == Step(b)
    {
      match state
      case RxSync1 => OneByte(pending, b, limit);
      case RxSync2 => OneByte(pending, b, limit);
      case RxHeader =>
        HeaderByte(header[..pos] + [b], limit);
        assert pending + [b] == PREAMBLE + (header[..pos] + [b]);
      case RxPayload =>
        PayloadByte(header[..], payload[..pos] + [b], limit);
        assert pending + [b] == PREAMBLE + header[..] + (payload[..pos] + [b]);
      case RxChecksum =>
        ChecksumByte(header[..], payload[..len], checksum[..pos] + [b], limit);
        assert pending + [b] == PREAMBLE + header[..] + payload[..len] + (checksum[..pos] + [b]);
    }

    method Advance(b: byte)
      requires Sane()
      modifies this, header, payload, checksum
      ensures Sane() && stream == old(stream)
      ensures events == old(events) + old(Step(b)).events && pending == old(Step(b)).rest
    {
      match state
      case RxSync1 => OnSync(b);
      case RxSync2 => OnSync(b);
      case RxPayload => OnPayload(b);
      case RxHeader => Conclude(b);
      case RxChecksum => Conclude(b);
    }

    /** The two states in which a byte can settle what the candidate is. */
    method Conclude(b: byte)
      requires Sane() && (state == RxHeader || state == RxChecksum)
      modifies header, checksum, this`state, this`pos, this`len, this`pending
      modifies this`books, this`events
      ensures Sane()
      ensures events == old(events) + old(Step(b)).events && pending == old(Step(b)).rest
    {
      if state == RxHeader { OnHeader(b); } else { OnChecksum(b); }
    }

    /** One byte from the port. */
    method RxByte(b: byte)
      requires Valid()
      modifies this, header, payload, checksum
      ensures Valid() && stream == old(stream) + [b]
    {
      ParseConcat(stream, [b], limit);
      StepIsParse(b);
      Advance(b);
      stream := stream + [b];
    }
  }
}
