/** The two ends of the serial link together: what the receiver's gap counter says of the frames the
    sender dropped. */
module Downlink {
  import opened Bytes
  import opened Framing
  import opened Scanner
  import opened Decoder
  import opened Refinement
  import opened SerialLink
  import opened Transmitter
  import Receiver

  // ---- A beginning of what was sent --------------------------------------------------------

  /** From a beginning of the encodings the receiver, too, takes exactly the complete frames. */
  lemma RunPrefix(fs: seq<Frame>, w: seq<byte>, link: Link) returns (n: nat)
    requires AllSendable(fs, link) && w <= EncodeAll(Enc(link), fs)
    ensures WholeWithin(Enc(link), fs, n, |w|)
    ensures Run(Next(link), IDLE, w).log == fs[..n] && Run(Next(link), IDLE, w).crcErrors == 0
    ensures w == EncodeAll(Enc(link), fs) ==> n == |fs|
  {
    DecodesAllEncoded(fs, link);
    n := ScanPrefix(Next(link), Enc(link), fs, w);
    var whole := EncodeAll(Enc(link), fs[..n]);
    var tail := w[|whole|..];
    assert w == whole + tail;
    RunWhole(fs, n, whole, tail, link);
    if n < |fs| {
      EncodeAllLonger(Enc(link), fs, n + 1);
      BeginningOfNext(fs, n, w, tail, link);
      StartIsPending(Core([], fs[..n], 0), fs[n], tail, link);
    } else {
      NothingBehind(Enc(link), fs, n, w, tail);
    }
  }

  lemma NothingBehind(enc: Encoder, fs: seq<Frame>, n: nat, w: seq<byte>, tail: seq<byte>)
    requires n == |fs| && w <= EncodeAll(enc, fs) && w == EncodeAll(enc, fs[..n]) + tail
    ensures tail == []
  {
    assert fs[..n] == fs;
  }

  lemma RunWhole(fs: seq<Frame>, n: nat, whole: seq<byte>, tail: seq<byte>, link: Link)
    requires AllSendable(fs, link) && n <= |fs| && whole == EncodeAll(Enc(link), fs[..n])
    ensures Run(Next(link), IDLE, whole + tail) == Run(Next(link), Core([], fs[..n], 0), tail)
  {
    FirstSendable(fs, n, link);
    RunFrames(fs[..n], link);
    RunConcat(Next(link), IDLE, whole, tail);
  }

  lemma RunFrames(fs: seq<Frame>, link: Link)
    requires AllSendable(fs, link)
    ensures Run(Next(link), IDLE, EncodeAll(Enc(link), fs)) == Core([], fs, 0)
  {
    FirmwareRoundTrip(IDLE, [], fs, link);
    assert [] + EncodeAll(Enc(link), fs) == EncodeAll(Enc(link), fs) && IDLE.log + fs == fs;
  }

  lemma FirstSendable(fs: seq<Frame>, n: nat, link: Link)
    requires AllSendable(fs, link) && n <= |fs|
    ensures AllSendable(fs[..n], link)
  {
  }

  lemma BeginningOfNext(fs: seq<Frame>, n: nat, w: seq<byte>, tail: seq<byte>, link: Link)
    requires n < |fs| && w <= EncodeAll(Enc(link), fs) && w == EncodeAll(Enc(link), fs[..n]) + tail
    requires |w| < |EncodeAll(Enc(link), fs[..n + 1])|
    ensures tail <= Enc(link)(fs[n]) && |tail| < |Enc(link)(fs[n])|
  {
    EncodedAround(Enc(link), fs, n);
    Overlap(EncodeAll(Enc(link), fs[..n]), tail, Enc(link)(fs[n]), EncodeAll(Enc(link), fs[n + 1..]));
  }

  lemma Around(fs: seq<Frame>, n: nat)
    requires n < |fs|
    ensures fs == fs[..n] + ([fs[n]] + fs[n + 1..]) && fs[..n + 1] == fs[..n] + [fs[n]]
  {
  }

  lemma EncodedAround(enc: Encoder, fs: seq<Frame>, n: nat)
    requires n < |fs|
    ensures EncodeAll(enc, fs) == EncodeAll(enc, fs[..n]) + (enc(fs[n]) + EncodeAll(enc, fs[n + 1..]))
    ensures EncodeAll(enc, fs[..n + 1]) == EncodeAll(enc, fs[..n]) + enc(fs[n])
  {
    Around(fs, n);
    EncodeAllConcat(enc, fs[..n], [fs[n]] + fs[n + 1..]);
    EncodeAllConcat(enc, [fs[n]], fs[n + 1..]);
    EncodeAllConcat(enc, fs[..n], [fs[n]]);
    assert [fs[n]][1..] == [] && enc(fs[n]) + [] == enc(fs[n]);
  }

  lemma Overlap(a: seq<byte>, tail: seq<byte>, e: seq<byte>, rest: seq<byte>)
    requires a + tail <= a + (e + rest) && |tail| < |e|
    ensures tail <= e
  {
    assert (a + tail)[|a|..] == tail && (a + (e + rest))[|a|..] == e + rest;
    assert a + tail == (a + (e + rest))[..|a| + |tail|];
    assert tail == (e + rest)[..|tail|];
  }

  lemma StartIsPending(c: Core, f: Frame, tail: seq<byte>, link: Link)
    requires c.pending == [] && Sendable(f, link) && tail <= Encode(f, link) && |tail| < |Encode(f, link)|
    ensures Run(Next(link), c, tail) == c.(pending := tail)
  {
    DecodesEncoded(f, link);
    EncodedFields(f, link);
    forall k | 0 < k <= |tail| ensures Next(link)(tail[..k]).Wait? {
      assert tail[..k] == Encode(f, link)[..k] == Enc(link)(f)[..k];
    }
    UndecidedPilesUp(Next(link), c, tail);
  }

  // ---- Dropped frames and gaps -------------------------------------------------------------

  function Dropped(built: seq<Built>): nat {
    if built == [] then 0
    else Dropped(built[..|built| - 1]) + if built[|built| - 1].queued then 0 else 1
  }

  /** Of the first n queued frames, how many have a number of dropped frames before them, since the
      queued frame before, that is not a multiple of 256. */
  function LossesSeen(built: seq<Built>, n: nat): nat
    requires n <= |Queued(built)|
  {
    if n < 2 then 0
    else
      var ks := QueuedAt(built);
      LossesSeen(built, n - 1) +
      if (Dropped(built[..ks[n - 1]]) - Dropped(built[..ks[n - 2]])) % 0x100 == 0 then 0 else 1
  }

  lemma {:induction false} DroppedFrom(built: seq<Built>, a: nat, b: nat)
    requires a < b <= |built| && built[a].queued && forall k :: a < k < b ==> !built[k].queued
    ensures Dropped(built[..b]) == Dropped(built[..a]) + b - a - 1
    decreases b
  {
    assert built[..b][..b - 1] == built[..b - 1];
    if a + 1 < b {
      DroppedFrom(built, a, b - 1);
    }
  }

  lemma GapsGrow(q: seq<Frame>, n: nat)
    requires 2 <= n <= |q|
    ensures Receiver.Gaps(q[..n]) ==
            Receiver.Gaps(q[..n - 1]) + if q[n - 1].seqNo == (q[n - 2].seqNo + 1) % 0x100 then 0 else 1
  {
    assert q[..n][..n - 1] == q[..n - 1];
  }

  lemma {:induction false} GapsAreLosses(built: seq<Built>, n: nat)
    requires Numbered(built) && n <= |Queued(built)|
    ensures Receiver.Gaps(Queued(built)[..n]) == LossesSeen(built, n)
    decreases n
  {
    if n >= 2 {
      GapsAreLosses(built, n - 1);
      GapsGrow(Queued(built), n);
      var a, b := QueuedNeighbours(built, n - 2);
      GapOf(built, a, b);
    }
  }

  lemma QueuedNeighbours(built: seq<Built>, i: nat) returns (a: nat, b: nat)
    requires i + 1 < |QueuedAt(built)|
    ensures a == QueuedAt(built)[i] && b == QueuedAt(built)[i + 1] && a < b < |built|
    ensures built[a].queued && forall k :: a < k < b ==> !built[k].queued
    ensures Queued(built)[i] == built[a].frame && Queued(built)[i + 1] == built[b].frame
  {
    NoneBetween(built, i);
    a, b := QueuedAt(built)[i], QueuedAt(built)[i + 1];
  }

  lemma GapOf(built: seq<Built>, a: nat, b: nat)
    requires Numbered(built) && a < b < |built| && built[a].queued && forall k :: a < k < b ==> !built[k].queued
    ensures built[b].frame.seqNo == (built[a].frame.seqNo + 1) % 0x100 <==>
            (Dropped(built[..b]) - Dropped(built[..a])) % 0x100 == 0
  {
    DroppedFrom(built, a, b);
    SequenceStep(built, a, b);
  }

  /** Between queued frame i and the one before it a multiple of 256 frames was dropped, or none. */
  predicate Hidden(built: seq<Built>, i: nat)
    requires 1 <= i < |Queued(built)|
  {
    var a: int, b: int := QueuedAt(built)[i - 1], QueuedAt(built)[i];
    (b - a - 1) % 256 == 0
  }

  /** No loss is seen among the first n queued frames exactly if that holds of all of them. */
  lemma {:induction false} NoGapExactly(built: seq<Built>, n: nat)
    requires n <= |Queued(built)|
    ensures LossesSeen(built, n) == 0 <==> forall i :: 1 <= i < n ==> Hidden(built, i)
    decreases n
  {
    if n >= 2 {
      NoGapExactly(built, n - 1);
      OneMoreSeen(built, n);
    }
  }

  lemma OneMoreSeen(built: seq<Built>, n: nat)
    requires 2 <= n <= |Queued(built)|
    ensures LossesSeen(built, n) == LossesSeen(built, n - 1) + if Hidden(built, n - 1) then 0 else 1
  {
    var a, b := QueuedNeighbours(built, n - 2);
    DroppedFrom(built, a, b);
  }

  /** A receiver that has drained what is on the wire holds a beginning of the queued frames, all of
      them once the ring is empty, and its gap counter is the number of losses among them. */
  lemma GapsCountLosses(tx: SerialTransmitter, rx: Receiver.SerialReceiver) returns (n: nat)
    requires tx.Valid() && rx.Valid() && rx.Value() == Run(Next(tx.link), IDLE, tx.wire)
    ensures WholeWithin(Enc(tx.link), Queued(tx.built), n, |tx.wire|)
    ensures rx.log == Queued(tx.built)[..n] && rx.rxCrcErrors == 0
    ensures rx.rxSeqGaps == LossesSeen(tx.built, n)
    ensures tx.ring == [] ==> n == |Queued(tx.built)|
  {
    n := RunPrefix(Queued(tx.built), tx.wire, tx.link);
    assert tx.wire + tx.ring == EncodeAll(Enc(tx.link), Queued(tx.built));
    GapsAreLosses(tx.built, n);
  }

  /** From power-up, receive what the transmitter has put on the wire. */
  method Listen(ghost tx: SerialTransmitter, link: Link, topics: seq<Receiver.Topic>, store: nat -> bool,
                bytes: seq<byte>)
    returns (rx: Receiver.SerialReceiver, ghost n: nat)
    requires tx.Valid() && tx.link == link && bytes == tx.wire
    ensures fresh(rx) && rx.Valid()
    ensures WholeWithin(Enc(link), Queued(tx.built), n, |tx.wire|) && rx.log == Queued(tx.built)[..n]
    ensures rx.rxSeqGaps == LossesSeen(tx.built, n) && rx.rxCrcErrors == 0
    ensures tx.ring == [] ==> n == |Queued(tx.built)|
  {
    rx := new Receiver.SerialReceiver(link, topics, store);
    rx.RxDrain(bytes);
    n := GapsCountLosses(tx, rx);
  }
}
