/** The compact serial frame: sync word, length, topic id, sequence number, flags, payload
    and a CRC over everything in between. */
module Framing {
  import opened Bytes

  const SYNC0: byte := 0x53
  const SYNC1: byte := 0x59
  const HEADER_SIZE := 8
  const TRAILER_SIZE := 2
  const OVERHEAD := HEADER_SIZE + TRAILER_SIZE
  /** The payload limit of the firmware, and of the ground decoder by default. */
  const MAX_PAYLOAD := 128

  const SYNC: seq<byte> := [SYNC0, SYNC1]

  datatype Frame = Frame(topicId: u16, seqNo: byte, payload: seq<byte>)

  /** What the two ends of a link agree on: the payload limit and the check function. Nothing
      about framing depends on which check function it is; Crc.CheckField is the one in use. */
  datatype Link = Link(limit: nat, check: seq<byte> -> u16)

  predicate Sendable(f: Frame, link: Link) {
    1 <= |f.payload| <= link.limit && |f.payload| < 0x1_0000
  }

  /** What the transmitters put between the sync word and the trailer. */
  function Body(f: Frame): (b: seq<byte>)
    requires |f.payload| < 0x1_0000
    ensures |b| == 6 + |f.payload|
  {
    PutLe16(|f.payload|) + PutLe16(f.topicId) + [f.seqNo, 0] + f.payload
  }

  function Encode(f: Frame, link: Link): (s: seq<byte>)
    requires |f.payload| < 0x1_0000
    ensures |s| == OVERHEAD + |f.payload|
  {
    SYNC + Body(f) + PutLe16(link.check(Body(f)))
  }

  /** What a receiver makes of a buffer that starts with the sync word. */
  datatype Verdict = Incomplete | BadLength | BadCrc | Good

  predicate StartsWithSync(b: seq<byte>) {
    |b| >= 2 && b[0] == SYNC0 && b[1] == SYNC1
  }

  function LengthField(b: seq<byte>): u16
    requires |b| >= HEADER_SIZE
  {
    GetLe16(b[2], b[3])
  }

  function Judge(b: seq<byte>, link: Link): Verdict
    requires StartsWithSync(b)
  {
    if |b| < HEADER_SIZE then Incomplete
    else
      var n := LengthField(b);
      if n == 0 || n > link.limit then BadLength
      else if |b| < OVERHEAD + n then Incomplete
      else if link.check(b[2..HEADER_SIZE + n]) != GetLe16(b[HEADER_SIZE + n], b[HEADER_SIZE + n + 1]) then BadCrc
      else Good
  }

  /** The frame at the head of a buffer that holds all of it. */
  function Content(b: seq<byte>): Frame
    requires |b| >= HEADER_SIZE && |b| >= OVERHEAD + LengthField(b)
  {
    Frame(GetLe16(b[4], b[5]), b[6], b[HEADER_SIZE..HEADER_SIZE + LengthField(b)])
  }

  /** A complete, accepted frame starts at offset p of s. */
  predicate ValidAt(s: seq<byte>, p: nat, link: Link) {
    p < |s| && StartsWithSync(s[p..]) && Judge(s[p..], link) == Good
  }

  function FrameAt(s: seq<byte>, p: nat, link: Link): Frame
    requires ValidAt(s, p, link)
  {
    Content(s[p..])
  }

  /** The offset behind the frame at p. */
  function EndOf(s: seq<byte>, p: nat, link: Link): (e: nat)
    requires ValidAt(s, p, link)
    ensures p + OVERHEAD < e <= |s| && e <= p + OVERHEAD + link.limit
  {
    p + OVERHEAD + LengthField(s[p..])
  }

  /** Bytes behind a decided candidate do not change the decision. */
  lemma JudgeExtends(a: seq<byte>, b: seq<byte>, link: Link)
    requires StartsWithSync(a) && Judge(a, link) != Incomplete
    ensures Judge(a + b, link) == Judge(a, link)
    ensures Judge(a, link) == Good ==> Content(a + b) == Content(a)
  {
    var n := LengthField(a);
    if 0 < n <= link.limit {
      assert (a + b)[2..HEADER_SIZE + n] == a[2..HEADER_SIZE + n];
      assert (a + b)[HEADER_SIZE..HEADER_SIZE + n] == a[HEADER_SIZE..HEADER_SIZE + n];
    }
  }

  lemma EncodedFields(f: Frame, link: Link)
    requires |f.payload| < 0x1_0000
    ensures var s := Encode(f, link);
            StartsWithSync(s) && LengthField(s) == |f.payload| &&
            GetLe16(s[4], s[5]) == f.topicId && s[6] == f.seqNo
  {
    var s := Encode(f, link);
    assert s[2] == PutLe16(|f.payload|)[0] && s[3] == PutLe16(|f.payload|)[1];
    assert s[4] == PutLe16(f.topicId)[0] && s[5] == PutLe16(f.topicId)[1];
  }

  /** A frame on the wire, byte by byte: sync word, length, topic, number, no flags, payload, and the
      check of everything behind the sync word. */
  lemma EncodedLayout(f: Frame, link: Link)
    requires |f.payload| < 0x1_0000
    ensures var s, n := Encode(f, link), |f.payload|;
            |s| == 10 + n && s[0] == 0x53 && s[1] == 0x59 && GetLe16(s[2], s[3]) == n &&
            GetLe16(s[4], s[5]) == f.topicId && s[6] == f.seqNo && s[7] == 0 && s[8..8 + n] == f.payload &&
            GetLe16(s[8 + n], s[9 + n]) == link.check(s[2..8 + n])
  {
    EncodedFields(f, link);
    var s, n := Encode(f, link), |f.payload|;
    assert s[2..8 + n] == Body(f) && s[8 + n..] == PutLe16(link.check(Body(f)));
    assert s[8 + n] == s[8 + n..][0] && s[9 + n] == s[8 + n..][1];
    assert s[8..8 + n] == f.payload;
  }

  /** What is judged, byte by byte: the length is bad if it is none or beyond the limit; whole is what
      has ten bytes more than its length; and a whole one is good exactly if its check agrees. */
  lemma JudgeExactly(b: seq<byte>, link: Link)
    requires StartsWithSync(b)
    ensures b[0] == 0x53 && b[1] == 0x59
    ensures |b| < 8 ==> Judge(b, link) == Incomplete
    ensures |b| >= 8 ==>
              var n := GetLe16(b[2], b[3]);
              (Judge(b, link) == BadLength <==> n == 0 || n > link.limit) &&
              (Judge(b, link) == Incomplete <==> 0 < n <= link.limit && |b| < 10 + n) &&
              (Judge(b, link) == Good <==>
                0 < n <= link.limit && |b| >= 10 + n && link.check(b[2..8 + n]) == GetLe16(b[8 + n], b[9 + n]))
    ensures Judge(b, link) == Good ==>
              Content(b) == Frame(GetLe16(b[4], b[5]), b[6], b[8..8 + GetLe16(b[2], b[3])])
  {
  }

  /** The flags do not matter to a receiver; where there are none, it accepts exactly what some sendable
      frame encodes to. */
  lemma GoodIsEncoded(b: seq<byte>, link: Link)
    requires StartsWithSync(b)
    ensures Judge(b, link) == Good && b[7] == 0 <==> exists f :: Sendable(f, link) && Encode(f, link) <= b
  {
    if Judge(b, link) == Good && b[7] == 0 {
      IsEncodingOfContent(b, link);
    }
    if f :| Sendable(f, link) && Encode(f, link) <= b {
      var e := Encode(f, link);
      EncodedIsGood(f, link);
      EncodedLayout(f, link);
      JudgeExtends(e, b[|e|..], link);
      assert b == e + b[|e|..];
    }
  }

  lemma IsEncodingOfContent(b: seq<byte>, link: Link)
    requires StartsWithSync(b) && Judge(b, link) == Good && b[7] == 0
    ensures Sendable(Content(b), link) && Encode(Content(b), link) == b[..OVERHEAD + LengthField(b)]
  {
    var f, n := Content(b), LengthField(b);
    BodyOf(b[2..8 + n], f);
    LowOctetFirst(b[8 + n], b[9 + n], link.check(Body(f)));
    assert b[..10 + n] == b[..2] + b[2..8 + n] + [b[8 + n], b[9 + n]];
  }

  lemma BodyOf(body: seq<byte>, f: Frame)
    requires |f.payload| < 0x1_0000 && |body| == 6 + |f.payload|
    requires GetLe16(body[0], body[1]) == |f.payload| && GetLe16(body[2], body[3]) == f.topicId
    requires body[4] == f.seqNo && body[5] == 0 && body[6..] == f.payload
    ensures body == Body(f)
  {
    LowOctetFirst(body[0], body[1], |f.payload|);
    LowOctetFirst(body[2], body[3], f.topicId);
    assert body == [body[0], body[1]] + [body[2], body[3]] + [body[4], 0] + body[6..];
  }

  /** Every receiver takes an encoded frame for what it is. */
  lemma EncodedIsGood(f: Frame, link: Link)
    requires Sendable(f, link)
    ensures StartsWithSync(Encode(f, link))
    ensures Judge(Encode(f, link), link) == Good && Content(Encode(f, link)) == f
  {
    EncodedFields(f, link);
    var s, n := Encode(f, link), |f.payload|;
    assert s[2..HEADER_SIZE + n] == Body(f);
    assert s[HEADER_SIZE + n..] == PutLe16(link.check(Body(f)));
    assert s[HEADER_SIZE + n] == s[HEADER_SIZE + n..][0] && s[HEADER_SIZE + n + 1] == s[HEADER_SIZE + n..][1];
    assert s[HEADER_SIZE..HEADER_SIZE + n] == f.payload;
  }

  /** A proper beginning of an encoded frame is never decided early. */
  lemma PartialIsIncomplete(f: Frame, k: nat, link: Link)
    requires Sendable(f, link) && 2 <= k < |Encode(f, link)|
    ensures StartsWithSync(Encode(f, link)[..k]) && Judge(Encode(f, link)[..k], link) == Incomplete
  {
    EncodedFields(f, link);
  }

  /** A frame damaged behind its length field is turned down whenever the check function
      tells the damaged bytes from the sent ones. */
  lemma DamagedIsRejected(f: Frame, damaged: seq<byte>, link: Link)
    requires Sendable(f, link)
    requires |damaged| == |Body(f)| && damaged[..2] == Body(f)[..2]
    requires link.check(damaged) != link.check(Body(f))
    ensures var s := SYNC + damaged + PutLe16(link.check(Body(f)));
            StartsWithSync(s) && Judge(s, link) == BadCrc
  {
    EncodedFields(f, link);
    var s, n := SYNC + damaged + PutLe16(link.check(Body(f))), |f.payload|;
    assert s[2] == damaged[..2][0] && s[3] == damaged[..2][1];
    assert Encode(f, link)[2] == Body(f)[..2][0] && Encode(f, link)[3] == Body(f)[..2][1];
    assert s[2..HEADER_SIZE + n] == damaged;
    assert s[HEADER_SIZE + n..] == PutLe16(link.check(Body(f)));
    assert s[HEADER_SIZE + n] == s[HEADER_SIZE + n..][0] && s[HEADER_SIZE + n + 1] == s[HEADER_SIZE + n..][1];
  }
}
