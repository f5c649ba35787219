/** The firmware's receiver behind arbitrary garbage: it takes up frames that do not hold the first sync
    byte again as soon as no candidate can reach back into the garbage. */
module Resync {
  import opened Bytes
  import opened Framing
  import opened Scanner
  import opened Decoder
  import opened Refinement
  import opened SerialLink
  import opened Recovery
  import opened OneByte

  // ---- What is pending ---------------------------------------------------------------------

  /** Pending bytes are undecided, the last ones received, and start with the first sync byte. */
  ghost predicate Pends(c: Core, u: seq<byte>, link: Link) {
    Holding(Next(link), c, u) && (c.pending != [] ==> c.pending[0] == SYNC0)
  }

  lemma PendsShort(c: Core, u: seq<byte>, link: Link)
    requires Pends(c, u, link)
    ensures |c.pending| < OVERHEAD + link.limit
  {
  }

  lemma LiveStarts(b: seq<byte>, link: Link)
    requires Decide(b, link).Wait? && Live(b) != []
    ensures Live(b)[0] == SYNC0
  {
  }

  lemma AdvanceStarts(c: Core, b: byte, link: Link)
    requires Decide(c.pending, link).Wait?
    ensures var p := Advance(Next(link), c, b).core.pending;
            p != [] ==> p[0] == SYNC0
  {
    var q := c.pending + [b];
    match Next(link)(q)
    case Wait => if Live(q) != [] { LiveStarts(q, link); }
    case Accept(_, _) =>
    case Skip(_, _) =>
  }

  lemma {:induction false} ReplayPends(c: Core, u: seq<byte>, bytes: seq<byte>, link: Link)
    requires Pends(c, u, link)
    ensures Pends(Replay(Next(link), c, bytes), u + bytes, link)
    decreases |bytes|
  {
    if bytes == [] {
      assert u + bytes == u;
    } else {
      NextIsFit(link);
      AdvanceHolds(Next(link), c, u, bytes[0]);
      AdvanceStarts(c, bytes[0], link);
      assert u + [bytes[0]] + bytes[1..] == u + bytes;
      ReplayPends(Advance(Next(link), c, bytes[0]).core, u + [bytes[0]], bytes[1..], link);
    }
  }

  lemma StepPends(c: Core, u: seq<byte>, b: byte, link: Link)
    requires Pends(c, u, link)
    ensures Pends(Step(Next(link), c, b), u + [b], link)
  {
    NextIsFit(link);
    StepHolds(Next(link), c, u, b);
    AdvanceStarts(c, b, link);
    var a := Advance(Next(link), c, b);
    if a.Rejected? {
      AdvanceHolds(Next(link), c, u, b);
      IdleHolds(Next(link), a.core);
      ReplayPends(a.core, [], a.tail, link);
    }
  }

  lemma {:induction false} RunPends(c: Core, u: seq<byte>, bytes: seq<byte>, link: Link)
    requires Pends(c, u, link)
    ensures Pends(Run(Next(link), c, bytes), u + bytes, link)
    decreases |bytes|
  {
    if bytes == [] {
      assert u + bytes == u;
    } else {
      StepPends(c, u, bytes[0], link);
      assert u + [bytes[0]] + bytes[1..] == u + bytes;
      RunPends(Step(Next(link), c, bytes[0]), u + [bytes[0]], bytes[1..], link);
    }
  }

  /** What is pending piles up again from an idle receiver. */
  lemma PilesUpAgain(c: Core, u: seq<byte>, link: Link)
    requires Pends(c, u, link)
    ensures Run(Next(link), c.(pending := []), c.pending) == c
  {
    NextIsStable(link);
    var p := c.pending;
    forall k | 0 < k <= |p| ensures Next(link)(p[..k]).Wait? {
      assert p == p[..k] + p[k..];
      assert StableOn(Next(link), p[..k], p[k..]);
    }
    UndecidedPilesUp(Next(link), c.(pending := []), p);
  }

  // ---- Where the next frame starts ---------------------------------------------------------

  /** From place n on there is no first sync byte before the start of frame j. */
  ghost predicate FrameFrom(fs: seq<Frame>, n: nat, j: nat, noise: seq<byte>, link: Link) {
    j <= |fs| && n <= |EncodeAll(Enc(link), fs)| && SYNC0 !in noise &&
    EncodeAll(Enc(link), fs)[n..] == noise + EncodeAll(Enc(link), fs[j..]) &&
    (j > 0 ==> |EncodeAll(Enc(link), fs[..j - 1])| < n)
  }

  lemma {:induction false} NextStart(fs: seq<Frame>, n: nat, link: Link) returns (j: nat, noise: seq<byte>)
    requires AllTame(fs, true, link) && n <= |EncodeAll(Enc(link), fs)|
    ensures FrameFrom(fs, n, j, noise, link)
    decreases |fs|
  {
    j, noise := 0, [];
    if n == 0 {
      assert fs[0..] == fs;
    } else {
      var e, rest := Enc(link)(fs[0]), EncodeAll(Enc(link), fs[1..]);
      assert fs[0] in fs;
      if n < |e| {
        j, noise := 1, e[n..];
        InsideFirst(fs, n, link);
      } else {
        j, noise := NextStart(fs[1..], n - |e|, link);
        BehindFirst(fs, n, j, noise, link);
        j := j + 1;
      }
    }
  }

  lemma InsideFirst(fs: seq<Frame>, n: nat, link: Link)
    requires AllTame(fs, true, link) && fs != [] && 0 < n < |Enc(link)(fs[0])|
    ensures FrameFrom(fs, n, 1, Enc(link)(fs[0])[n..], link)
  {
    assert fs[0] in fs && fs[..0] == [];
    QuietFrom(fs[0], n, link);
    SliceInside(Enc(link)(fs[0]), EncodeAll(Enc(link), fs[1..]), n);
  }

  lemma QuietFrom(f: Frame, n: nat, link: Link)
    requires Sendable(f, link) && Tame(f, true, link) && 0 < n < |Encode(f, link)|
    ensures SYNC0 !in Encode(f, link)[n..]
  {
    forall r | n <= r < |Encode(f, link)| ensures Encode(f, link)[r] != SYNC0 {
      TameBytes(f, true, r, link);
    }
  }

  lemma SliceInside(e: seq<byte>, rest: seq<byte>, n: nat)
    requires n <= |e|
    ensures (e + rest)[n..] == e[n..] + rest
  {
  }

  lemma BehindFirst(fs: seq<Frame>, n: nat, j: nat, noise: seq<byte>, link: Link)
    requires fs != [] && |Enc(link)(fs[0])| <= n && 0 < n && FrameFrom(fs[1..], n - |Enc(link)(fs[0])|, j, noise, link)
    ensures FrameFrom(fs, n, j + 1, noise, link)
  {
    var e := Enc(link)(fs[0]);
    DropMore(fs, j);
    SliceBehindFirst(e, EncodeAll(Enc(link), fs[1..]), n);
    if j > 0 {
      EncodeAllFirst(Enc(link), fs, j - 1);
    } else {
      assert fs[..0] == [];
    }
  }

  lemma DropMore(fs: seq<Frame>, j: nat)
    requires fs != [] && j < |fs|
    ensures fs[1..][j..] == fs[j + 1..]
  {
  }

  lemma SliceBehindFirst(e: seq<byte>, rest: seq<byte>, n: nat)
    requires |e| <= n <= |e| + |rest|
    ensures (e + rest)[n..] == rest[n - |e|..]
  {
  }

  // ---- Main result -------------------------------------------------------------------------

  /** From a place in the run of frames where an idle receiver with those logged would go on. */
  lemma FromThere(c: Core, fs: seq<Frame>, place: nat, bytes: seq<byte>, link: Link)
    returns (j: nat)
    requires AllTame(fs, true, link) && place <= |EncodeAll(Enc(link), fs)| && c.pending == []
    requires bytes == EncodeAll(Enc(link), fs)[place..]
    ensures j <= |fs| && (j > 0 ==> |EncodeAll(Enc(link), fs[..j - 1])| < place)
    ensures Run(Next(link), c, bytes).log == c.log + fs[j..]
  {
    var noise;
    j, noise := NextStart(fs, place, link);
    forall f | f in fs[j..] ensures Sendable(f, link) {
      assert f in fs;
    }
    FirmwareRoundTrip(c, noise, fs[j..], link);
  }

  /** The pending bytes of a receiver that stands far enough in e lie in e. */
  lemma PendingInside(g: seq<byte>, e: seq<byte>, n: nat, p: seq<byte>)
    requires n <= |e| && |p| <= n && IsSuffix(p, g + e[..n])
    ensures e[n - |p|..] == p + e[n..]
  {
    var w := g + e[..n];
    assert p == w[|w| - |p|..];
    assert w[|w| - |p|..] == e[..n][n - |p|..];
  }

  /** Whatever the receiver was fed before: of frames without the first sync byte in them, sent back to
      back, it reports all from some frame on, and the one before that starts less than the longest frame
      behind the garbage. */
  lemma FirmwareResynchronises(g: seq<byte>, fs: seq<Frame>, link: Link) returns (j: nat, before: seq<Frame>)
    requires AllTame(fs, true, link)
    ensures j <= |fs| && (j > 0 ==> |EncodeAll(Enc(link), fs[..j - 1])| < OVERHEAD + link.limit)
    ensures Run(Next(link), IDLE, g + EncodeAll(Enc(link), fs)).log == before + fs[j..]
  {
    var e, n := EncodeAll(Enc(link), fs), OVERHEAD + link.limit - 1;
    if |e| < n {
      j, before := |fs|, Run(Next(link), IDLE, g + e).log;
      assert before + fs[j..] == before;
      if j > 0 { EncodeAllLonger(Enc(link), fs, j - 1); }
    } else {
      var c := Run(Next(link), IDLE, g + e[..n]);
      IdlePends(link);
      RunPends(IDLE, [], g + e[..n], link);
      assert [] + (g + e[..n]) == g + e[..n];
      j := GoesOnFrom(c, g, fs, n, link);
      before := c.log;
    }
  }

  lemma IdlePends(link: Link)
    ensures Pends(IDLE, [], link)
  {
  }

  lemma GoesOnFrom(c: Core, g: seq<byte>, fs: seq<Frame>, n: nat, link: Link) returns (j: nat)
    requires AllTame(fs, true, link) && n == OVERHEAD + link.limit - 1 && n <= |EncodeAll(Enc(link), fs)|
    requires c == Run(Next(link), IDLE, g + EncodeAll(Enc(link), fs)[..n])
    requires Pends(c, g + EncodeAll(Enc(link), fs)[..n], link)
    ensures j <= |fs| && (j > 0 ==> |EncodeAll(Enc(link), fs[..j - 1])| <= n)
    ensures Run(Next(link), IDLE, g + EncodeAll(Enc(link), fs)).log == c.log + fs[j..]
  {
    var e := EncodeAll(Enc(link), fs);
    PendsShort(c, g + e[..n], link);
    PendingInside(g, e, n, c.pending);
    RunSame(c, g + e[..n], e[n..], link);
    j := FromThere(c.(pending := []), fs, n - |c.pending|, c.pending + e[n..], link);
    CutHere(g, e, n);
  }

  lemma CutHere(g: seq<byte>, e: seq<byte>, n: nat)
    requires n <= |e|
    ensures g + e == g + e[..n] + e[n..]
  {
  }

  /** Running on is running the pending bytes again and then on. */
  lemma RunSame(c: Core, u: seq<byte>, t: seq<byte>, link: Link)
    requires Pends(c, u, link) && c == Run(Next(link), IDLE, u)
    ensures Run(Next(link), IDLE, u + t) == Run(Next(link), c.(pending := []), c.pending + t)
  {
    PilesUpAgain(c, u, link);
    RunConcat(Next(link), c.(pending := []), c.pending, t);
    RunConcat(Next(link), IDLE, u, t);
  }
}
