/** The ground-side decoder: it buffers what it is fed and rescans every rejected candidate. */
module Decoder {
  import opened Bytes
  import opened Framing
  import opened Scanner

  /** What the decoder does with the front of its buffer. */
  function Decide(b: seq<byte>, link: Link): Decision {
    if |b| < 2 then Wait
    else if !StartsWithSync(b) then Skip(1, false)
    else match Judge(b, link)
      case Incomplete => Wait
      case BadLength => Skip(2, false)
      case BadCrc => Skip(2, true)
      case Good => Accept(OVERHEAD + LengthField(b), Content(b))
  }

  function Next(link: Link): Decider {
    (b: seq<byte>) => Decide(b, link)
  }

  lemma NextIsSound(link: Link)
    ensures Sound(Next(link))
  {
    forall b ensures SoundOn(Next(link), b) {
    }
  }

  lemma NextIsStable(link: Link)
    ensures Stable(Next(link))
  {
    forall a, b ensures StableOn(Next(link), a, b) {
      if StartsWithSync(a) && Judge(a, link) != Incomplete {
        JudgeExtends(a, b, link);
      }
    }
  }

  lemma NextIsThorough(link: Link)
    ensures Thorough(Next(link))
  {
    forall b, i: nat ensures ThoroughOn(Next(link), b, i) {
      if Next(link)(b).Skip? && i < Next(link)(b).n && i <= |b| {
        SkippedIsNoFrame(b, i, link);
      }
    }
  }

  lemma SkippedIsNoFrame(b: seq<byte>, i: nat, link: Link)
    requires Decide(b, link).Skip? && i < Decide(b, link).n && i <= |b|
    ensures !Decide(b[i..], link).Accept?
  {
    if i == 0 {
      assert b[0..] == b;
    } else {
      assert i == 1 && StartsWithSync(b) && !StartsWithSync(b[1..]);
    }
  }

  /** Accepting is finding a valid frame. */
  lemma AcceptedIsValid(s: seq<byte>, p: nat, link: Link)
    ensures AcceptedAt(Next(link), s, p) <==> ValidAt(s, p, link)
    ensures ValidAt(s, p, link) ==> Next(link)(s[p..]) == Accept(EndOf(s, p, link) - p, FrameAt(s, p, link))
  {
  }

  // ---- The class ----------------------------------------------------------------

  /** The offset of the first sync word, or -1. */
  method Find(b: seq<byte>) returns (start: int)
    ensures -1 <= start < |b|
    ensures start >= 0 ==> StartsWithSync(b[start..])
    ensures forall k :: 0 <= k < |b| && (start < 0 || k < start) ==> !StartsWithSync(b[k..])
  {
    for i := 0 to |b|
      invariant forall k :: 0 <= k < i ==> !StartsWithSync(b[k..])
    {
      if i + 1 < |b| && b[i] == SYNC0 && b[i + 1] == SYNC1 {
        return i;
      }
    }
    return -1;
  }

  /** No sync word starts in the first k bytes. */
  predicate Noise(b: seq<byte>, k: nat) {
    k <= |b| && forall i :: 0 <= i < k ==> !StartsWithSync(b[i..])
  }

  lemma NoiseBehind(b: seq<byte>, k: nat)
    requires Noise(b, k) && 0 < k
    ensures !StartsWithSync(b) && Noise(b[1..], k - 1)
  {
    assert b[0..] == b;
    forall i | 0 <= i < k - 1 ensures !StartsWithSync(b[1..][i..]) {
      assert b[1..][i..] == b[i + 1..];
    }
  }

  /** Bytes in front of the first sync word, one kept if there is none, decode to nothing. */
  lemma {:induction false} SkipNoise(b: seq<byte>, k: nat, link: Link)
    requires (k < |b| || k == |b| == 0) && Noise(b, k)
    ensures Scan(Next(link), b) == Scan(Next(link), b[k..])
    decreases k
  {
    if k == 0 {
      assert b[0..] == b;
    } else {
      NoiseBehind(b, k);
      SkipOne(b, link);
      SkipNoise(b[1..], k - 1, link);
      assert b[1..][k - 1..] == b[k..];
    }
  }

  lemma SkipOne(b: seq<byte>, link: Link)
    requires |b| >= 2 && !StartsWithSync(b)
    ensures Scan(Next(link), b) == Scan(Next(link), b[1..])
  {
    assert Next(link)(b) == Skip(1, false);
  }

  lemma ScanBehindNoise(noise: seq<byte>, b: seq<byte>, link: Link)
    requires SYNC0 !in noise && b != []
    ensures Scan(Next(link), noise + b) == Scan(Next(link), b)
  {
    var s := noise + b;
    forall i | 0 <= i < |noise| ensures !StartsWithSync(s[i..]) {
      assert s[i] == noise[i];
    }
    SkipNoise(s, |noise|, link);
    assert s[|noise|..] == b;
  }

  /** One decision of a scan, as the loop takes it. */
  lemma ScanStep(all: Scanned, frames: seq<Frame>, errors: nat, b: seq<byte>, link: Link, d: Decision)
    requires d == Decide(b, link)
    requires all == Prepend(frames, errors, Scan(Next(link), b))
    ensures d.Taken() <= |b| && (d.Taken() == 0 ==> d.Wait?)
    ensures all == if d.Wait? then Scanned(frames, errors, b)
                   else Prepend(frames + d.Found(), errors + d.Errors(), Scan(Next(link), b[d.Taken()..]))
  {
    NextIsSound(link);
    assert SoundOn(Next(link), b);
    if !d.Wait? {
      PrependAssociative(frames, errors, d.Found(), d.Errors(), Scan(Next(link), b[d.Taken()..]));
    } else {
      assert frames + [] == frames;
    }
  }

  class FrameDecoder {
    const link: Link
    var buf: seq<byte>
    var crcErrors: nat

    constructor (link: Link)
      ensures this.link == link && buf == [] && crcErrors == 0
    {
      this.link := link;
      buf, crcErrors := [], 0;
    }

    /** The part of the loop body behind the search: judge the candidate at the front. */
    method Candidate() returns (d: Decision)
      requires StartsWithSync(buf)
      ensures d == Decide(buf, link)
    {
      if |buf| < HEADER_SIZE {
        return Wait;
      }
      var length := GetLe16(buf[2], buf[3]);
      if length == 0 || length > link.limit {
        return Skip(2, false);
      }
      var total := HEADER_SIZE + length + TRAILER_SIZE;
      if |buf| < total {
        return Wait;
      }
      var want := GetLe16(buf[HEADER_SIZE + length], buf[HEADER_SIZE + length + 1]);
      if link.check(buf[2..HEADER_SIZE + length]) != want {
        return Skip(2, true);
      }
      return Accept(total, Frame(GetLe16(buf[4], buf[5]), buf[6], buf[HEADER_SIZE..HEADER_SIZE + length]));
    }

    /** Consume a chunk and return the frames it completed. */
    method Feed(chunk: seq<byte>) returns (frames: seq<Frame>)
      modifies this
      ensures frames == Scan(Next(link), old(buf) + chunk).frames
      ensures buf == Scan(Next(link), old(buf) + chunk).rest
      ensures crcErrors == old(crcErrors) + Scan(Next(link), old(buf) + chunk).crcErrors
    {
      buf := buf + chunk;
      ghost var all := Scan(Next(link), buf);
      frames := [];
      while true
        invariant crcErrors >= old(crcErrors)
        invariant all == Prepend(frames, crcErrors - old(crcErrors), Scan(Next(link), buf))
        decreases |buf|
      {
        var start := Find(buf);
        if start < 0 {
          var keep := if |buf| > 0 then |buf| - 1 else 0;
          SkipNoise(buf, keep, link);
          buf := buf[keep..];
          ScanStep(all, frames, crcErrors - old(crcErrors), buf, link, Wait);
          return;
        }
        SkipNoise(buf, start, link);
        buf := buf[start..];
        var d := Candidate();
        ScanStep(all, frames, crcErrors - old(crcErrors), buf, link, d);
        if d.Wait? {
          return;
        }
        frames := frames + d.Found();
        crcErrors := crcErrors + d.Errors();
        buf := buf[d.Taken()..];
      }
    }
  }

  // ---- What it promises -------------------------------------------------------------

  /** Two feeds of one decoder give what one feed of the concatenation gives, whatever
      earlier feeds had left in the buffer. */
  method FeedTwice(d: FrameDecoder, e: FrameDecoder, a: seq<byte>, b: seq<byte>)
      returns (split: seq<Frame>, whole: seq<Frame>)
    requires d != e && d.link == e.link && d.buf == e.buf && d.crcErrors == e.crcErrors
    modifies d, e
    ensures split == whole && d.buf == e.buf && d.crcErrors == e.crcErrors
  {
    FeedInChunks(d.buf, a, b, d.link);
    var first := d.Feed(a);
    var second := d.Feed(b);
    split := first + second;
    whole := e.Feed(a + b);
  }

  lemma FeedInChunks(buf: seq<byte>, a: seq<byte>, b: seq<byte>, link: Link)
    ensures var r := Scan(Next(link), buf + a);
            Scan(Next(link), buf + (a + b)) == Prepend(r.frames, r.crcErrors, Scan(Next(link), r.rest + b))
  {
    NextIsSound(link);
    NextIsStable(link);
    assert buf + (a + b) == (buf + a) + b;
    ScanInChunks(Next(link), buf + a, b);
  }

  /** A decoder never keeps as much as the longest frame. */
  lemma RestIsShort(s: seq<byte>, link: Link)
    ensures |Scan(Next(link), s).rest| <= |s|
    ensures |Scan(Next(link), s).rest| < OVERHEAD + link.limit
  {
    NextIsSound(link);
    RestWaits(Next(link), s);
  }

  /** No valid frame is lost behind any garbage: once the longest possible frame fits behind its
      start, it has been returned, unless an accepted frame in front of it overlaps it. The
      returned frames are those of the one greedy leftmost scan. */
  lemma NoFrameLost(s: seq<byte>, p: nat, link: Link) returns (starts: seq<nat>, k: nat)
    requires ValidAt(s, p, link) && p + OVERHEAD + link.limit <= |s|
    ensures |Scan(Next(link), s).rest| <= |s|
    ensures Greedy(Next(link), s, 0, |s| - |Scan(Next(link), s).rest|, starts)
    ensures |Scan(Next(link), s).frames| == |starts| && k < |starts|
    ensures ValidAt(s, starts[k], link) && starts[k] <= p < EndOf(s, starts[k], link)
    ensures Scan(Next(link), s).frames[k] == FrameAt(s, starts[k], link)
  {
    NextIsSound(link);
    NextIsThorough(link);
    RestIsShort(s, link);
    AcceptedIsValid(s, p, link);
    starts, k := NothingLost(Next(link), s, p);
    AcceptedIsValid(s, starts[k], link);
  }

  /** Counted is a candidate that is whole, of a good length, and whose check does not agree. */
  lemma CountedIsBadCrc(s: seq<byte>, p: nat, link: Link)
    ensures CountedAt(Next(link), s, p) <==>
            p + 8 <= |s| && s[p] == 0x53 && s[p + 1] == 0x59 &&
            var n := GetLe16(s[p + 2], s[p + 3]);
            0 < n <= link.limit && p + 10 + n <= |s| &&
            link.check(s[p + 2..p + 8 + n]) != GetLe16(s[p + 8 + n], s[p + 9 + n])
  {
    if p + 8 <= |s| && StartsWithSync(s[p..]) {
      var b, n := s[p..], LengthField(s[p..]);
      JudgeExactly(b, link);
      assert p + 10 + n <= |s| ==> b[2..8 + n] == s[p + 2..p + 8 + n];
    }
  }

  lemma NextIsSingle(link: Link)
    ensures Single(Next(link))
  {
    forall b, i: nat ensures SingleOn(Next(link), b, i) {
      if Next(link)(b).Skip? && 0 < i < Next(link)(b).n && i <= |b| {
        assert i == 1 && StartsWithSync(b) && !StartsWithSync(b[1..]);
      }
    }
  }

  /** One error is counted for every offset in the decided part with such a candidate, those inside
      returned frames left out. */
  lemma ErrorsExactly(s: seq<byte>, link: Link) returns (starts: seq<nat>, stop: nat)
    ensures stop + |Scan(Next(link), s).rest| == |s| && Greedy(Next(link), s, 0, stop, starts)
    ensures |Scan(Next(link), s).frames| == |starts|
    ensures Scan(Next(link), s).crcErrors == CountedOutside(Next(link), s, 0, stop, starts)
  {
    NextIsSound(link);
    NextIsThorough(link);
    NextIsSingle(link);
    starts, stop := WholeScanCounts(Next(link), s);
  }

  function Enc(link: Link): Encoder {
    (f: Frame) => if |f.payload| < 0x1_0000 then Encode(f, link) else []
  }

  ghost predicate AllSendable(fs: seq<Frame>, link: Link) {
    forall f :: f in fs ==> Sendable(f, link)
  }

  lemma DecodesEncoded(f: Frame, link: Link)
    requires Sendable(f, link)
    ensures Decodes(Next(link), Enc(link)(f), f)
  {
    EncodedIsGood(f, link);
    EncodedFields(f, link);
    var e := Encode(f, link);
    forall k | 0 <= k < |e| ensures Next(link)(e[..k]).Wait? {
      if k >= 2 {
        PartialIsIncomplete(f, k, link);
      }
    }
  }

  lemma DecodesAllEncoded(fs: seq<Frame>, link: Link)
    requires AllSendable(fs, link)
    ensures Sound(Next(link)) && Stable(Next(link)) && DecodesAll(Next(link), Enc(link), fs)
  {
    NextIsSound(link);
    NextIsStable(link);
    forall f | f in fs ensures Decodes(Next(link), Enc(link)(f), f) {
      DecodesEncoded(f, link);
    }
  }

  /** Frames encoded behind noise without the first sync byte come back complete, in order,
      without an error, and nothing else does. */
  lemma RoundTrip(noise: seq<byte>, fs: seq<Frame>, link: Link)
    requires SYNC0 !in noise && AllSendable(fs, link) && fs != []
    ensures Scan(Next(link), noise + EncodeAll(Enc(link), fs)) == Scanned(fs, 0, [])
  {
    var wire := EncodeAll(Enc(link), fs);
    assert Sendable(fs[0], link);
    EncodedFields(fs[0], link);
    assert |wire| > 0;
    ScanBehindNoise(noise, wire, link);
    DecodesAllEncoded(fs, link);
    ScanEncoded(Next(link), Enc(link), fs, []);
    assert wire + [] == wire && Next(link)([]).Wait?;
  }
}
