/** The firmware's transmit side: change detection by generation, a rate limit per topic, a
    wrapping sequence number and a bounded queue that drops whole frames. */
module Transmitter {
  import opened Bytes
  import opened Framing
  import opened Scanner
  import opened Decoder

  /** Everything ever published on a topic, oldest first; the generation is the count. */
  type History = seq<seq<byte>>

  datatype Row = Row(id: u16, payloadSize: u16, tx: bool)

  datatype TxSlot = TxSlot(lastGeneration: nat, lastSentMs: int, primed: bool)

  /** A frame that was built: for which topic and when, from which history (as it was when the
      generation was sampled and as it was when the payload was read), and whether it was queued. */
  datatype Built = Built(topic: nat, timeMs: int, sampled: History, read: History, frame: Frame, queued: bool)

  /** The frames that were queued, in order. */
  function Queued(built: seq<Built>): seq<Frame> {
    if built == [] then []
    else
      var b := built[|built| - 1];
      Queued(built[..|built| - 1]) + if b.queued then [b.frame] else []
  }

  /** The last frame built for a topic, or -1. */
  function LastFor(built: seq<Built>, topic: nat): (k: int)
    ensures -1 <= k < |built|
    ensures k >= 0 ==> built[k].topic == topic
    ensures forall j :: k < j < |built| ==> built[j].topic != topic
  {
    if built == [] then -1
    else if built[|built| - 1].topic == topic then |built| - 1
    else LastFor(built[..|built| - 1], topic)
  }

  /** Frame k carries the count of frames built before it, wrapped. */
  ghost predicate Numbered(built: seq<Built>) {
    forall k :: 0 <= k < |built| ==> built[k].frame.seqNo == k % 0x100
  }

  /** Frame k holds one whole sample: the newest at the time of its read, which is at least as
      new as the generation that was sampled. */
  ghost predicate Whole(built: seq<Built>, table: seq<Row>) {
    forall k :: 0 <= k < |built| ==> WholeFrame(built[k], table)
  }

  ghost predicate WholeFrame(b: Built, table: seq<Row>) {
    b.topic < |table| && 0 < |b.sampled| && b.sampled <= b.read &&
    b.frame.topicId == table[b.topic].id && b.frame.payload == b.read[|b.read| - 1]
  }

  /** Two frames of one topic are at least the minimum interval apart. */
  ghost predicate Spaced(built: seq<Built>, minInterval: nat) {
    forall j, k :: 0 <= j < k < |built| ==> Apart(built[j], built[k], minInterval)
  }

  /** Frame k is of another generation than the last frame of its topic before it. */
  ghost predicate MovedOn(built: seq<Built>, k: nat)
    requires k < |built|
  {
    var j := LastFor(built[..k], built[k].topic);
    j >= 0 ==> |built[j].sampled| != |built[k].sampled|
  }

  ghost predicate AllMovedOn(built: seq<Built>) {
    forall k :: 0 <= k < |built| ==> MovedOn(built, k)
  }

  predicate Apart(x: Built, y: Built, minInterval: nat) {
    x.topic == y.topic ==> y.timeMs - x.timeMs >= minInterval
  }

  ghost predicate SlotMatches(slot: TxSlot, built: seq<Built>, topic: nat) {
    var k := LastFor(built, topic);
    if k < 0 then slot == TxSlot(0, 0, false)
    else slot == TxSlot(|built[k].sampled|, built[k].timeMs, true)
  }

  predicate TableFits(table: seq<Row>, link: Link) {
    link.limit < 0x1_0000 && forall i :: 0 <= i < |table| ==> 1 <= table[i].payloadSize <= link.limit
  }

  /** The record of frames is in order, and the slots say what it says of the last frames. */
  ghost predicate InOrder(built: seq<Built>, slots: seq<TxSlot>, table: seq<Row>, minInterval: nat) {
    Numbered(built) && Whole(built, table) && Spaced(built, minInterval) && AllMovedOn(built) && |slots| == |table| &&
    forall i :: 0 <= i < |slots| ==> SlotMatches(slots[i], built, i)
  }

  /** Everything queued is on the wire or still in the ring, in order and complete. */
  ghost predicate OnWire(built: seq<Built>, wire: seq<byte>, ring: seq<byte>, link: Link) {
    wire + ring == EncodeAll(Enc(link), Queued(built)) && AllSendable(Queued(built), link)
  }

  lemma {:induction false} SpacedSinceLast(built: seq<Built>, topic: nat, minInterval: nat, j: nat)
    requires Spaced(built, minInterval) && j < |built| && built[j].topic == topic
    ensures LastFor(built, topic) >= j
    ensures built[j].timeMs <= built[LastFor(built, topic)].timeMs
  {
    assert LastFor(built, topic) > j ==> Apart(built[j], built[LastFor(built, topic)], minInterval);
  }

  lemma InOrderGrows(built: seq<Built>, slots: seq<TxSlot>, table: seq<Row>, minInterval: nat, b: Built)
    requires InOrder(built, slots, table, minInterval) && WholeFrame(b, table)
    requires b.frame.seqNo == |built| % 0x100 && |b.sampled| != slots[b.topic].lastGeneration
    requires slots[b.topic].primed ==> b.timeMs - slots[b.topic].lastSentMs >= minInterval
    ensures InOrder(built + [b], slots[b.topic := TxSlot(|b.sampled|, b.timeMs, true)], table, minInterval)
  {
    var more := built + [b];
    assert more[..|built|] == built;
    assert SlotMatches(slots[b.topic], built, b.topic);
    forall j, k | 0 <= j < k < |more| ensures Apart(more[j], more[k], minInterval) {
      if k < |built| {
        assert Apart(built[j], built[k], minInterval);
      } else if more[j].topic == b.topic {
        SpacedSinceLast(built, b.topic, minInterval, j);
      }
    }
    forall k | 0 <= k < |more| ensures MovedOn(more, k) {
      if k < |built| {
        assert more[..k] == built[..k] && MovedOn(built, k);
      }
    }
    var after := slots[b.topic := TxSlot(|b.sampled|, b.timeMs, true)];
    forall i | 0 <= i < |after| ensures SlotMatches(after[i], more, i) {
      assert SlotMatches(slots[i], built, i);
    }
  }

  lemma OnWireGrows(built: seq<Built>, wire: seq<byte>, ring: seq<byte>, link: Link, b: Built)
    requires OnWire(built, wire, ring, link) && Sendable(b.frame, link)
    ensures OnWire(built + [b], wire, if b.queued then ring + Encode(b.frame, link) else ring, link)
    ensures Queued(built + [b]) == Queued(built) + if b.queued then [b.frame] else []
  {
    assert (built + [b])[..|built|] == built && Queued(built) + [] == Queued(built);
    if b.queued {
      EncodedMore(Enc(link), Queued(built), b.frame, wire, ring, Encode(b.frame, link));
    }
  }

  /** Counters, slots, ring and wire all tell of the same frames. */
  ghost predicate Books(link: Link, table: seq<Row>, minInterval: nat, slots: seq<TxSlot>, ring: seq<byte>,
                        frames: nat, dropped: nat, wire: seq<byte>, built: seq<Built>)
  {
    frames == |Queued(built)| && frames + dropped == |built| &&
    OnWire(built, wire, ring, link) && InOrder(built, slots, table, minInterval)
  }

  lemma BooksGrow(link: Link, table: seq<Row>, minInterval: nat, slots: seq<TxSlot>, ring: seq<byte>,
                  frames: nat, dropped: nat, wire: seq<byte>, built: seq<Built>, b: Built)
    requires Books(link, table, minInterval, slots, ring, frames, dropped, wire, built)
    requires WholeFrame(b, table) && b.frame.seqNo == |built| % 0x100 && Sendable(b.frame, link)
    requires |b.sampled| != slots[b.topic].lastGeneration
    requires slots[b.topic].primed ==> b.timeMs - slots[b.topic].lastSentMs >= minInterval
    ensures Books(link, table, minInterval, slots[b.topic := TxSlot(|b.sampled|, b.timeMs, true)],
                  if b.queued then ring + Encode(b.frame, link) else ring,
                  if b.queued then frames + 1 else frames, if b.queued then dropped else dropped + 1,
                  wire, built + [b])
  {
    OnWireGrows(built, wire, ring, link, b);
    InOrderGrows(built, slots, table, minInterval, b);
  }

  lemma EncodedMore(enc: Encoder, q: seq<Frame>, f: Frame, wire: seq<byte>, ring: seq<byte>, e: seq<byte>)
    requires wire + ring == EncodeAll(enc, q) && e == enc(f)
    ensures wire + (ring + e) == EncodeAll(enc, q + [f])
  {
    EncodeAllConcat(enc, q, [f]);
    assert EncodeAll(enc, [f]) == e + [];
    assert wire + (ring + e) == wire + ring + e;
  }

  lemma NextNumber(n: nat)
    ensures (n % 0x100 + 1) % 0x100 == (n + 1) % 0x100
  {
  }

  /** The n-th frame, its bytes, and whether it fits the room there is. */
  ghost predicate IsSampleFrame(b: Built, bytes: seq<byte>, table: seq<Row>, link: Link, n: nat, room: int) {
    WholeFrame(b, table) && b.frame.seqNo == n % 0x100 && Sendable(b.frame, link) &&
    bytes == Encode(b.frame, link) && b.queued == (|bytes| <= room)
  }

  lemma SampleMakesFrame(b: Built, bytes: seq<byte>, table: seq<Row>, link: Link, n: nat, room: int)
    requires TableFits(table, link) && WholeFrame(b, table) && |b.frame.payload| == table[b.topic].payloadSize
    requires b.frame.seqNo == n % 0x100 && bytes == Encode(b.frame, link)
    requires b.queued == (OVERHEAD + |b.frame.payload| <= room)
    ensures IsSampleFrame(b, bytes, table, link, n, room)
  {
  }

  lemma SampleGrows(link: Link, table: seq<Row>, minInterval: nat, slots: seq<TxSlot>, ring: seq<byte>,
                    frames: nat, dropped: nat, wire: seq<byte>, built: seq<Built>, b: Built,
                    bytes: seq<byte>, room: int)
    requires Books(link, table, minInterval, slots, ring, frames, dropped, wire, built)
    requires IsSampleFrame(b, bytes, table, link, |built|, room) && |b.sampled| != slots[b.topic].lastGeneration
    requires slots[b.topic].primed ==> b.timeMs - slots[b.topic].lastSentMs >= minInterval
    ensures b.topic < |slots| && b.queued == (|bytes| <= room)
    ensures Books(link, table, minInterval, slots[b.topic := TxSlot(|b.sampled|, b.timeMs, true)],
                  if b.queued then ring + bytes else ring,
                  if b.queued then frames + 1 else frames, if b.queued then dropped else dropped + 1,
                  wire, built + [b])
  {
    BooksGrow(link, table, minInterval, slots, ring, frames, dropped, wire, built, b);
  }

  predicate IsDue(slot: TxSlot, nowMs: int, generation: nat, minInterval: nat) {
    generation != 0 && generation != slot.lastGeneration &&
    !(slot.primed && nowMs - slot.lastSentMs < minInterval)
  }

  // ---- One pass over the table -------------------------------------------------------------

  /** What a pass finds: the slots before it, each topic's history when its generation is sampled and when
      it is read, whether it can be read, and the room and the number of frames there are at first. */
  datatype Poll = Poll(
    table: seq<Row>, slots: seq<TxSlot>, sampled: seq<History>, later: seq<History>, readable: seq<bool>,
    nowMs: int, minInterval: nat, room: int, first: nat)

  predicate PollFits(p: Poll) {
    |p.slots| == |p.sampled| == |p.later| == |p.readable| == |p.table| &&
    (forall i :: 0 <= i < |p.table| ==> p.sampled[i] <= p.later[i]) &&
    forall i, s :: 0 <= i < |p.table| && s in p.later[i] ==> |s| == p.table[i].payloadSize
  }

  predicate Sends(p: Poll, i: nat)
    requires PollFits(p) && i < |p.table|
  {
    p.table[i].tx && IsDue(p.slots[i], p.nowMs, |p.sampled[i]|, p.minInterval) && p.readable[i]
  }

  /** The bytes of those frames that were queued. */
  function QueuedSize(built: seq<Built>): nat {
    if built == [] then 0
    else
      var b := built[|built| - 1];
      QueuedSize(built[..|built| - 1]) + if b.queued then OVERHEAD + |b.frame.payload| else 0
  }

  function SampleOf(p: Poll, i: nat, before: seq<Built>): Built
    requires PollFits(p) && i < |p.table| && Sends(p, i)
  {
    var payload := p.later[i][|p.later[i]| - 1];
    Built(i, p.nowMs, p.sampled[i], p.later[i], Frame(p.table[i].id, (p.first + |before|) % 0x100, payload),
          QueuedSize(before) + OVERHEAD + |payload| <= p.room)
  }

  /** The frames for the first n topics. */
  function PassBuilt(p: Poll, n: nat): seq<Built>
    requires PollFits(p) && n <= |p.table|
  {
    if n == 0 then []
    else
      var added := PassBuilt(p, n - 1);
      if Sends(p, n - 1) then added + [SampleOf(p, n - 1, added)] else added
  }

  function SlotAfter(p: Poll, i: nat): TxSlot
    requires PollFits(p) && i < |p.table|
  {
    if Sends(p, i) then TxSlot(|p.sampled[i]|, p.nowMs, true) else p.slots[i]
  }

  ghost predicate HasTopic(built: seq<Built>, topic: nat) {
    exists k :: 0 <= k < |built| && built[k].topic == topic
  }

  /** Frame k of a pass holds what its topic held, and is queued if it fits behind those before it. */
  predicate FromPoll(p: Poll, added: seq<Built>, k: nat)
    requires PollFits(p) && k < |added|
  {
    var b := added[k];
    b.topic < |p.table| && b.timeMs == p.nowMs && b.sampled == p.sampled[b.topic] && b.read == p.later[b.topic] &&
    b.read != [] && b.frame.payload == b.read[|b.read| - 1] && b.frame.topicId == p.table[b.topic].id &&
    b.queued == (QueuedSize(added[..k]) + OVERHEAD + |b.frame.payload| <= p.room)
  }

  /** In table order, one for a topic at most, of the first n topics. */
  ghost predicate Ordered(built: seq<Built>, n: nat) {
    (forall k :: 0 <= k < |built| ==> built[k].topic < n) &&
    forall j, k :: 0 <= j < k < |built| ==> built[j].topic < built[k].topic
  }

  lemma {:induction false} PassOrder(p: Poll, n: nat)
    requires PollFits(p) && n <= |p.table|
    ensures Ordered(PassBuilt(p, n), n)
    decreases n
  {
    if n > 0 {
      var added := PassBuilt(p, n - 1);
      PassOrder(p, n - 1);
      if Sends(p, n - 1) { SampleIsThere(p, n - 1, added); }
      OrderGrows(added, PassBuilt(p, n), n - 1);
    }
  }

  lemma OrderGrows(added: seq<Built>, more: seq<Built>, n: nat)
    requires Ordered(added, n) && (more == added || (exists b: Built :: b.topic == n && more == added + [b]))
    ensures Ordered(more, n + 1)
  {
  }

  lemma {:induction false} PassContents(p: Poll, n: nat, k: nat)
    requires PollFits(p) && n <= |p.table| && k < |PassBuilt(p, n)|
    ensures FromPoll(p, PassBuilt(p, n), k)
    decreases n
  {
    var added := PassBuilt(p, n - 1);
    if k < |added| {
      PassContents(p, n - 1, k);
      SameBefore(p, added, PassBuilt(p, n), k);
    } else {
      NewestFromPoll(p, n - 1, added);
    }
  }

  lemma SameBefore(p: Poll, added: seq<Built>, more: seq<Built>, k: nat)
    requires PollFits(p) && added <= more && k < |added| && FromPoll(p, added, k)
    ensures FromPoll(p, more, k)
  {
    assert more[..k] == added[..k];
  }

  lemma NewestFromPoll(p: Poll, i: nat, added: seq<Built>)
    requires PollFits(p) && i < |p.table| && Sends(p, i)
    ensures FromPoll(p, added + [SampleOf(p, i, added)], |added|)
  {
    SampleIsThere(p, i, added);
    assert (added + [SampleOf(p, i, added)])[..|added|] == added;
  }

  lemma SampleIsThere(p: Poll, i: nat, before: seq<Built>)
    requires PollFits(p) && i < |p.table| && Sends(p, i)
    ensures var b := SampleOf(p, i, before);
            b.topic == i && b.sampled == p.sampled[i] && b.read == p.later[i] != [] &&
            b.frame.payload == b.read[|b.read| - 1] && b.frame.topicId == p.table[i].id
  {
  }

  lemma {:induction false} PassTopics(p: Poll, n: nat, i: nat)
    requires PollFits(p) && i < n <= |p.table|
    ensures HasTopic(PassBuilt(p, n), i) <==> Sends(p, i)
    decreases n
  {
    if i < n - 1 {
      OnePassMore(p, n - 1, i);
      PassTopics(p, n - 1, i);
    } else {
      OwnTurn(p, i);
    }
  }

  lemma OwnTurn(p: Poll, i: nat)
    requires PollFits(p) && i < |p.table|
    ensures HasTopic(PassBuilt(p, i + 1), i) <==> Sends(p, i)
  {
    OnePassMore(p, i, i);
    PassOrder(p, i);
    NotYet(PassBuilt(p, i), i);
  }

  lemma OnePassMore(p: Poll, n: nat, i: nat)
    requires PollFits(p) && n < |p.table|
    ensures HasTopic(PassBuilt(p, n + 1), i) <==> HasTopic(PassBuilt(p, n), i) || (i == n && Sends(p, n))
  {
    var added := PassBuilt(p, n);
    if Sends(p, n) {
      SampleIsThere(p, n, added);
      OneMoreTopic(added, SampleOf(p, n, added), i);
    }
  }

  lemma OneMoreTopic(added: seq<Built>, b: Built, i: nat)
    ensures HasTopic(added + [b], i) <==> HasTopic(added, i) || b.topic == i
  {
    var more := added + [b];
    if HasTopic(added, i) {
      var k :| 0 <= k < |added| && added[k].topic == i;
      assert more[k].topic == i;
    }
    if HasTopic(more, i) {
      var k :| 0 <= k < |more| && more[k].topic == i;
      assert k < |added| ==> added[k].topic == i;
    }
    assert more[|added|] == b;
  }

  lemma NotYet(added: seq<Built>, i: nat)
    requires Ordered(added, i)
    ensures !HasTopic(added, i)
  {
  }

  /** A pass gives a frame for a topic exactly if the topic is outbound, was published at all and again since
      its last frame, is not held back by the interval, and can be read. */
  lemma PassExactly(p: Poll, i: nat)
    requires PollFits(p) && i < |p.table|
    ensures HasTopic(PassBuilt(p, |p.table|), i) <==>
            p.table[i].tx && |p.sampled[i]| != 0 && |p.sampled[i]| != p.slots[i].lastGeneration &&
            (p.slots[i].primed ==> p.nowMs - p.slots[i].lastSentMs >= p.minInterval) && p.readable[i]
    ensures SlotAfter(p, i) ==
            if HasTopic(PassBuilt(p, |p.table|), i) then TxSlot(|p.sampled[i]|, p.nowMs, true) else p.slots[i]
  {
    PassTopics(p, |p.table|, i);
  }

  /** A pass that has come to topic i, after which there is so much room. */
  ghost predicate Passed(p: Poll, i: nat, first: seq<Built>, built: seq<Built>, slots: seq<TxSlot>, room: int) {
    PollFits(p) && i <= |p.table| == |slots| && p.first == |first| && built == first + PassBuilt(p, i) &&
    room == p.room - QueuedSize(PassBuilt(p, i)) &&
    (forall k :: 0 <= k < i ==> slots[k] == SlotAfter(p, k)) &&
    (forall k :: i <= k < |slots| ==> slots[k] == p.slots[k])
  }

  lemma PassStart(p: Poll, built: seq<Built>)
    requires PollFits(p) && p.first == |built|
    ensures Passed(p, 0, built, built, p.slots, p.room)
  {
    assert built + [] == built;
  }

  lemma SampleOfPoll(p: Poll, i: nat, added: seq<Built>, count: nat, room: int, b: Built)
    requires PollFits(p) && i < |p.table| && Sends(p, i) && p.later[i] != []
    requires count == p.first + |added| && room == p.room - QueuedSize(added)
    requires b.topic == i && b.timeMs == p.nowMs && b.sampled == p.sampled[i] && b.read == p.later[i]
    requires b.frame == Frame(p.table[i].id, count % 0x100, b.read[|b.read| - 1])
    requires b.queued == (OVERHEAD + |b.frame.payload| <= room)
    ensures b == SampleOf(p, i, added)
  {
  }

  lemma SendsHere(p: Poll, i: nat, first: seq<Built>, built: seq<Built>, slots: seq<TxSlot>, room: int)
    requires Passed(p, i, first, built, slots, room) && i < |p.table|
    ensures |slots| == |p.table| && p.sampled[i] <= p.later[i]
    ensures forall s :: s in p.later[i] ==> |s| == p.table[i].payloadSize
    ensures Sends(p, i) <==>
            p.table[i].tx && |p.sampled[i]| != 0 && |p.sampled[i]| != slots[i].lastGeneration && p.readable[i] &&
            (slots[i].primed ==> p.nowMs - slots[i].lastSentMs >= p.minInterval)
  {
  }

  lemma PassedBy(p: Poll, i: nat, first: seq<Built>, built: seq<Built>, slots: seq<TxSlot>, room: int)
    requires Passed(p, i, first, built, slots, room) && i < |p.table| && !Sends(p, i)
    ensures Passed(p, i + 1, first, built, slots, room)
  {
  }

  lemma PassedWith(p: Poll, i: nat, first: seq<Built>, built: seq<Built>, slots: seq<TxSlot>, room: int, b: Built)
    requires Passed(p, i, first, built, slots, room) && i < |p.table| && Sends(p, i)
    requires b == SampleOf(p, i, PassBuilt(p, i))
    ensures Passed(p, i + 1, first, built + [b], slots[i := SlotAfter(p, i)],
                   room - if b.queued then OVERHEAD + |b.frame.payload| else 0)
  {
    var added := PassBuilt(p, i);
    assert (added + [b])[..|added|] == added;
    assert first + added + [b] == first + (added + [b]);
  }

  lemma PassedSent(p: Poll, i: nat, first: seq<Built>, built: seq<Built>, slots: seq<TxSlot>, room: int, b: Built)
    requires Passed(p, i, first, built, slots, room) && i < |p.table| && Sends(p, i) && p.later[i] != []
    requires b == Built(i, p.nowMs, p.sampled[i], p.later[i],
                        Frame(p.table[i].id, |built| % 0x100, p.later[i][|p.later[i]| - 1]),
                        OVERHEAD + |p.later[i][|p.later[i]| - 1]| <= room)
    ensures Passed(p, i + 1, first, built + [b], slots[i := TxSlot(|p.sampled[i]|, p.nowMs, true)],
                   room - if b.queued then OVERHEAD + |b.frame.payload| else 0)
  {
    SampleOfPoll(p, i, PassBuilt(p, i), |built|, room, b);
    PassedWith(p, i, first, built, slots, room, b);
  }

  class SerialTransmitter {
    const link: Link
    const table: seq<Row>
    const capacity: nat
    const minInterval: nat
    var slots: seq<TxSlot>
    var txSeq: byte
    var ring: seq<byte>
    var txFrames: nat
    var txDropped: nat
    /** Every byte handed to the UART, and every frame built. */
    ghost var wire: seq<byte>
    ghost var built: seq<Built>

    ghost predicate Consistent()
      reads `slots, `ring, `txFrames, `txDropped, `wire, `built
    {
      TableFits(table, link) && |ring| <= capacity &&
      Books(link, table, minInterval, slots, ring, txFrames, txDropped, wire, built)
    }

    ghost predicate Valid()
      reads this
    {
      Consistent() && txSeq == |built| % 0x100
    }

    constructor (link: Link, table: seq<Row>, capacity: nat, minInterval: nat)
      requires TableFits(table, link)
      ensures Valid() && built == [] && wire == []
      ensures this.link == link && this.table == table && this.minInterval == minInterval && this.capacity == capacity
    {
      this.link, this.table, this.capacity, this.minInterval := link, table, capacity, minInterval;
      slots := seq(|table|, i => TxSlot(0, 0, false));
      txSeq, ring, txFrames, txDropped := 0, [], 0, 0;
      wire, built := [], [];
    }

    /** The bytes of a frame, as they are assembled. */
    method Assemble(id: u16, payload: seq<byte>) returns (bytes: seq<byte>)
      requires |payload| < 0x1_0000
      modifies `txSeq
      ensures bytes == Encode(Frame(id, old(txSeq), payload), link)
      ensures txSeq == (old(txSeq) + 1) % 0x100
    {
      bytes := [SYNC0, SYNC1] + PutLe16(|payload|) + PutLe16(id) + [txSeq, 0] + payload;
      assert bytes[2..] == Body(Frame(id, txSeq, payload));
      txSeq := (txSeq + 1) % 0x100;
      var crc := link.check(bytes[2..]);
      bytes := bytes + PutLe16(crc);
    }

    predicate Due(i: nat, nowMs: int, generation: nat)
      requires i < |slots|
      reads this
    {
      IsDue(slots[i], nowMs, generation, minInterval)
    }

    /** Send topic i if it was published again and its interval has passed. Publishers run at any
        time: sampled is the history when the generation is read, later the history when the
        payload is read. */
    method TopicIfDue(i: nat, nowMs: int, sampled: History, later: History, readable: bool) returns (sent: bool)
      requires Valid() && i < |table| && sampled <= later
      requires forall s :: s in later ==> |s| == table[i].payloadSize
      modifies `txSeq, `ring, `txFrames, `txDropped, `slots, `built
      ensures Valid()
      ensures sent <==> |sampled| != 0 && |sampled| != old(slots[i].lastGeneration) && readable &&
                        (old(slots[i].primed) ==> nowMs - old(slots[i].lastSentMs) >= minInterval)
      ensures !sent ==> built == old(built) && slots == old(slots) && ring == old(ring) && txSeq == old(txSeq)
      ensures sent ==> |later| > 0 && slots == old(slots)[i := TxSlot(|sampled|, nowMs, true)]
      ensures sent ==>
                var fits := OVERHEAD + table[i].payloadSize <= capacity - |old(ring)|;
                var f := Frame(table[i].id, old(txSeq), later[|later| - 1]);
                built == old(built) + [Built(i, nowMs, sampled, later, f, fits)] &&
                ring == if fits then old(ring) + Encode(f, link) else old(ring)
    {
      var generation := |sampled|;
      if generation == 0 || generation == slots[i].lastGeneration {
        return false;
      }
      if slots[i].primed && nowMs - slots[i].lastSentMs < minInterval {
        return false;
      }
      if !readable {
        return false;
      }
      assert later[|later| - 1] in later;
      SendSample(i, nowMs, sampled, later);
      return true;
    }

    method SendSample(i: nat, nowMs: int, sampled: History, later: History)
      requires Valid() && i < |table| && 0 < |sampled| && sampled <= later
      requires |later[|later| - 1]| == table[i].payloadSize && |sampled| != slots[i].lastGeneration
      requires slots[i].primed ==> nowMs - slots[i].lastSentMs >= minInterval
      modifies `txSeq, `ring, `txFrames, `txDropped, `slots, `built
      ensures Valid()
      ensures var fits := OVERHEAD + table[i].payloadSize <= capacity - |old(ring)|;
              var f := Frame(table[i].id, old(txSeq), later[|later| - 1]);
              built == old(built) + [Built(i, nowMs, sampled, later, f, fits)] &&
              ring == if fits then old(ring) + Encode(f, link) else old(ring)
      ensures slots == old(slots)[i := TxSlot(|sampled|, nowMs, true)]
    {
      ghost var b;
      var bytes;
      bytes, b := AssembleSample(i, nowMs, sampled, later);
      Enqueue(bytes, i, |sampled|, nowMs, b);
    }

    method AssembleSample(i: nat, nowMs: int, sampled: History, later: History)
      returns (bytes: seq<byte>, ghost b: Built)
      requires i < |table| && TableFits(table, link) && txSeq == |built| % 0x100
      requires 0 < |sampled| && sampled <= later && |later[|later| - 1]| == table[i].payloadSize
      modifies `txSeq
      ensures IsSampleFrame(b, bytes, table, link, |built|, capacity - |ring|)
      ensures b == Built(i, nowMs, sampled, later, Frame(table[i].id, old(txSeq), later[|later| - 1]),
                         OVERHEAD + table[i].payloadSize <= capacity - |ring|)
      ensures txSeq == (|built| + 1) % 0x100
    {
      var payload := later[|later| - 1];
      b := Built(i, nowMs, sampled, later, Frame(table[i].id, txSeq, payload),
                 OVERHEAD + |payload| <= capacity - |ring|);
      NextNumber(|built|);
      bytes := Assemble(table[i].id, payload);
      SampleMakesFrame(b, bytes, table, link, |built|, capacity - |ring|);
    }

    /** Queue the frame whole or drop it whole; the sequence number is spent either way. */
    method Enqueue(bytes: seq<byte>, i: nat, generation: nat, nowMs: int, ghost b: Built)
      requires Consistent() && i < |slots| == |table| && txSeq == (|built| + 1) % 0x100
      requires IsSampleFrame(b, bytes, table, link, |built|, capacity - |ring|)
      requires b.topic == i && b.timeMs == nowMs && |b.sampled| == generation != slots[i].lastGeneration
      requires slots[i].primed ==> nowMs - slots[i].lastSentMs >= minInterval
      modifies `ring, `txFrames, `txDropped, `slots, `built
      ensures Valid() && built == old(built) + [b]
      ensures ring == if b.queued then old(ring) + bytes else old(ring)
      ensures slots == old(slots)[i := TxSlot(generation, nowMs, true)]
    {
      SampleGrows(link, table, minInterval, slots, ring, txFrames, txDropped, wire, built, b, bytes, capacity - |ring|);
      Place(bytes, b.queued);
      slots := slots[i := TxSlot(generation, nowMs, true)];
      built := built + [b];
    }

    method Place(bytes: seq<byte>, ghost fits: bool)
      requires |ring| <= capacity && fits == (|bytes| <= capacity - |ring|)
      modifies `ring, `txFrames, `txDropped
      ensures |ring| <= capacity
      ensures ring == if fits then old(ring) + bytes else old(ring)
      ensures txFrames == if fits then old(txFrames) + 1 else old(txFrames)
      ensures txDropped == if fits then old(txDropped) else old(txDropped) + 1
    {
      if capacity - |ring| < |bytes| {
        txDropped := txDropped + 1;
      } else {
        ring := ring + bytes;
        txFrames := txFrames + 1;
      }
    }

    /** What a pass finds. */
    ghost function PollNow(nowMs: int, sampled: seq<History>, later: seq<History>, readable: seq<bool>): Poll
      reads this
    {
      Poll(table, slots, sampled, later, readable, nowMs, minInterval, capacity - |ring|, |built|)
    }

    /** One pass over the table. */
    method TxScan(nowMs: int, sampled: seq<History>, later: seq<History>, readable: seq<bool>)
      requires Valid() && PollFits(PollNow(nowMs, sampled, later, readable))
      modifies `txSeq, `ring, `txFrames, `txDropped, `slots, `built
      ensures Valid() && |slots| == |table|
      ensures var p := old(PollNow(nowMs, sampled, later, readable));
              built == old(built) + PassBuilt(p, |table|) &&
              forall i :: 0 <= i < |table| ==> slots[i] == SlotAfter(p, i)
    {
      ghost var p := PollNow(nowMs, sampled, later, readable);
      PassStart(p, built);
      for i := 0 to |table|
        invariant Valid() && p.table == table && p.minInterval == minInterval && p.nowMs == nowMs
        invariant p.sampled == sampled && p.later == later && p.readable == readable
        invariant Passed(p, i, old(built), built, slots, capacity - |ring|)
      {
        ScanTopic(i, nowMs, sampled[i], later[i], readable[i], p, old(built));
      }
    }

    method ScanTopic(i: nat, nowMs: int, sampled: History, later: History, readable: bool,
                     ghost p: Poll, ghost first: seq<Built>)
      requires Valid() && i < |table| && Passed(p, i, first, built, slots, capacity - |ring|)
      requires p.table == table && p.minInterval == minInterval && p.nowMs == nowMs
      requires p.sampled[i] == sampled && p.later[i] == later && p.readable[i] == readable
      modifies `txSeq, `ring, `txFrames, `txDropped, `slots, `built
      ensures Valid() && Passed(p, i + 1, first, built, slots, capacity - |ring|)
    {
      SendsHere(p, i, first, built, slots, capacity - |ring|);
      if table[i].tx {
        SendOne(i, nowMs, sampled, later, readable, p, first);
      } else {
        PassedBy(p, i, first, built, slots, capacity - |ring|);
      }
    }

    method SendOne(i: nat, nowMs: int, sampled: History, later: History, readable: bool,
                   ghost p: Poll, ghost first: seq<Built>)
      requires Valid() && i < |table| == |slots| && sampled <= later && PollFits(p)
      requires forall s :: s in later ==> |s| == table[i].payloadSize
      requires Passed(p, i, first, built, slots, capacity - |ring|)
      requires i < |p.table| && p.table[i] == table[i] && p.nowMs == nowMs
      requires p.sampled[i] == sampled && p.later[i] == later && p.readable[i] == readable
      requires Sends(p, i) <==> |sampled| != 0 && |sampled| != slots[i].lastGeneration && readable &&
                                (slots[i].primed ==> nowMs - slots[i].lastSentMs >= minInterval)
      modifies `txSeq, `ring, `txFrames, `txDropped, `slots, `built
      ensures Valid() && Passed(p, i + 1, first, built, slots, capacity - |ring|)
    {
      ghost var before, slotsBefore, room := built, slots, capacity - |ring|;
      var sent := TopicIfDue(i, nowMs, sampled, later, readable);
      if sent {
        PassedSent(p, i, first, before, slotsBefore, room, built[|built| - 1]);
      } else {
        PassedBy(p, i, first, before, slotsBefore, room);
      }
    }

    /** The transmit half of the interrupt: of at most 32 bytes claimed, the UART takes `written`. */
    method IsrTransmit(written: nat)
      requires Valid() && written <= 32 && written <= |ring|
      modifies `ring, `wire
      ensures Valid()
      ensures wire == old(wire) + old(ring)[..written] && ring == old(ring)[written..]
    {
      wire := wire + ring[..written];
      ring := ring[written..];
      assert wire + ring == old(wire + ring);
    }
  }

  // ---- What a run of the transmitter promises ----------------------------------------------

  /** What went out is a beginning of the encodings of the queued frames, so a decoder recovers
      exactly those, in order, up to the last complete one. */
  lemma WireDecodes(tx: SerialTransmitter) returns (n: nat)
    requires tx.Valid()
    ensures WholeWithin(Enc(tx.link), Queued(tx.built), n, |tx.wire|)
    ensures Scan(Next(tx.link), tx.wire).frames == Queued(tx.built)[..n]
    ensures Scan(Next(tx.link), tx.wire).crcErrors == 0
    ensures tx.ring == [] ==> n == |Queued(tx.built)|
  {
    var q := Queued(tx.built);
    DecodesAllEncoded(q, tx.link);
    n := ScanPrefix(Next(tx.link), Enc(tx.link), q, tx.wire);
    assert tx.wire + tx.ring == EncodeAll(Enc(tx.link), q);
    if n < |q| {
      EncodeAllLonger(Enc(tx.link), q, n + 1);
    }
  }

  /** Freshness: while nothing newer was published since the generation a slot recorded, the last
      frame of the topic holds the current sample; otherwise the topic is due again. */
  lemma QuietTopicIsFresh(tx: SerialTransmitter, i: nat, now: History, nowMs: int)
    requires tx.Valid() && i < |tx.table|
    requires var k := LastFor(tx.built, i); k >= 0 ==> tx.built[k].read <= now
    ensures tx.slots[i].lastGeneration <= |now|
    ensures 0 < |now| == tx.slots[i].lastGeneration ==>
              LastFor(tx.built, i) >= 0 &&
              tx.built[LastFor(tx.built, i)].frame.payload == now[|now| - 1]
    ensures |now| == 0 || |now| == tx.slots[i].lastGeneration ==> !tx.Due(i, nowMs, |now|)
    ensures tx.slots[i].lastGeneration < |now| ==>
              (tx.Due(i, nowMs, |now|) <==> !tx.slots[i].primed || nowMs - tx.slots[i].lastSentMs >= tx.minInterval)
  {
    assert SlotMatches(tx.slots[i], tx.built, i);
    var k := LastFor(tx.built, i);
    if k >= 0 {
      assert WholeFrame(tx.built[k], tx.table);
    }
  }

  /** A topic is not sent again until it was published again: of two neighbouring frames of one topic the
      generations differ. */
  lemma SentOncePerGeneration(tx: SerialTransmitter, j: nat, k: nat)
    requires tx.Valid() && j < k < |tx.built| && tx.built[j].topic == tx.built[k].topic
    requires forall m :: j < m < k ==> tx.built[m].topic != tx.built[k].topic
    ensures |tx.built[j].sampled| != |tx.built[k].sampled|
  {
    assert MovedOn(tx.built, k);
    LastIs(tx.built, j, k);
  }

  lemma LastIs(built: seq<Built>, j: nat, k: nat)
    requires j < k < |built| && built[j].topic == built[k].topic
    requires forall m :: j < m < k ==> built[m].topic != built[k].topic
    ensures LastFor(built[..k], built[k].topic) == j
  {
    assert built[..k][j] == built[j];
    assert forall m :: j < m < k ==> built[..k][m] == built[m];
  }

  /** Two frames of one topic leave at least the minimum interval apart. */
  lemma RateIsLimited(tx: SerialTransmitter, j: nat, k: nat)
    requires tx.Valid() && j < k < |tx.built| && tx.built[j].topic == tx.built[k].topic
    ensures tx.built[k].timeMs - tx.built[j].timeMs >= tx.minInterval
  {
    assert Apart(tx.built[j], tx.built[k], tx.minInterval);
  }

  // ---- Loss detection ------------------------------------------------------------------

  /** The positions, among all frames built, of those that were queued. */
  function QueuedAt(built: seq<Built>): (ks: seq<nat>)
    ensures |ks| == |Queued(built)|
    ensures forall i :: 0 <= i < |ks| ==>
              ks[i] < |built| && built[ks[i]].queued && Queued(built)[i] == built[ks[i]].frame
  {
    if built == [] then []
    else
      var n := |built| - 1;
      var ks := QueuedAt(built[..n]);
      assert forall i :: 0 <= i < |ks| ==> built[ks[i]] == built[..n][ks[i]];
      if built[n].queued then ks + [n] else ks
  }

  /** Between two neighbouring queued frames there are only dropped ones. */
  lemma {:induction false} DroppedBetween(built: seq<Built>, i: nat, k: nat)
    requires i + 1 < |QueuedAt(built)|
    ensures QueuedAt(built)[i] < QueuedAt(built)[i + 1]
    ensures QueuedAt(built)[i] < k < QueuedAt(built)[i + 1] ==> !built[k].queued
    decreases |built|
  {
    var n := |built| - 1;
    var ks := QueuedAt(built[..n]);
    if i + 1 < |ks| {
      DroppedBetween(built[..n], i, k);
    } else if ks[i] < k < n {
      DroppedBehind(built[..n], k);
    }
  }

  lemma {:induction false} DroppedBehind(built: seq<Built>, k: nat)
    requires k < |built|
    requires QueuedAt(built) != [] ==> QueuedAt(built)[|QueuedAt(built)| - 1] < k
    ensures !built[k].queued
    decreases |built|
  {
    var n := |built| - 1;
    if k < n {
      DroppedBehind(built[..n], k);
    }
  }

  lemma NoneBetween(built: seq<Built>, i: nat)
    requires i + 1 < |QueuedAt(built)|
    ensures var ks := QueuedAt(built);
            ks[i] < ks[i + 1] && forall k :: ks[i] < k < ks[i + 1] ==> !built[k].queued
  {
    var ks := QueuedAt(built);
    DroppedBetween(built, i, 0);
    forall k | ks[i] < k < ks[i + 1] ensures !built[k].queued {
      DroppedBetween(built, i, k);
    }
  }

  lemma SequenceStep(built: seq<Built>, a: nat, b: nat)
    requires Numbered(built) && a < b < |built|
    ensures built[b].frame.seqNo == (built[a].frame.seqNo + 1) % 0x100 <==> (b - a - 1) % 0x100 == 0
  {
    var q := (b - a - 1) / 0x100;
    Wrapped(a, b, q, (b - a - 1) % 0x100);
  }

  lemma Wrapped(a: nat, b: nat, q: nat, r: nat)
    requires b == a + 1 + 0x100 * q + r && r < 0x100
    ensures b % 0x100 == (a % 0x100 + 1) % 0x100 <==> r == 0
  {
    var k, x := a / 0x100, a % 0x100;
    assert b == 0x100 * (k + q) + (x + 1 + r);
    assert b % 0x100 == (x + 1 + r) % 0x100;
  }
}
