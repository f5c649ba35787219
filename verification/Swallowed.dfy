/** How one byte changed, put in or lost loses the firmware the frame behind the damaged one: the damaged
    frame is taken for a longer one, and in the rescan another candidate inside it reaches past the start
    of the frame behind. */
module Swallowed {
  import opened Bytes
  import opened Framing
  import opened Scanner
  import opened Decoder
  import opened Refinement
  import opened SerialLink
  import opened Recovery
  import opened OneByte
  import opened Losses

  // ---- Candidate within candidate ----------------------------------------------------------

  lemma RescanPasses(c: Core, h: seq<byte>, inner: seq<byte>, counted: bool, r: seq<byte>, link: Link)
    requires c.pending == [] && SYNC0 !in h && TurnedDown(inner, counted, link) && SYNC0 !in r
    ensures Replay(Next(link), c, h + (inner + r)) == Counted(c, counted)
  {
    NoiseIsDropped(h, c, link);
    ReplayConcat(Next(link), c, h, inner + r);
    RescanDrops(c, inner, counted, link);
    ReplayConcat(Next(link), c, inner, r);
    NoiseIsDropped(r, Counted(c, counted), link);
  }

  lemma FirmwareGoesOn(q: seq<byte>, d: Core, z: seq<byte>, fs: seq<Frame>, link: Link)
    requires TurnedDown(q, true, link) && Replay(Next(link), Core([], [], 1), q[2..]) == d
    requires d.pending == [] && SYNC0 !in z && AllSendable(fs, link)
    ensures Run(Next(link), IDLE, q + (z + EncodeAll(Enc(link), fs))) == d.(log := d.log + fs)
  {
    CandidateIsRescanned(IDLE, q, true, link);
    FirmwareRoundTrip(d, z, fs, link);
    RunBehind(Next(link), IDLE, q, d, z + EncodeAll(Enc(link), fs), d.(log := d.log + fs));
  }

  lemma RunBehind(next: Decider, c: Core, q: seq<byte>, d: Core, more: seq<byte>, e: Core)
    requires Run(next, c, q) == d && Run(next, d, more) == e
    ensures Run(next, c, q + more) == e
  {
    RunConcat(next, c, q, more);
  }

  lemma SkipsFirst(q: seq<byte>, counted: bool, rest: seq<byte>, link: Link)
    requires TurnedDown(q, counted, link)
    ensures Scan(Next(link), q + rest) ==
            Prepend([], if counted then 1 else 0, Scan(Next(link), (q + rest)[2..]))
  {
    NextIsStable(link);
    assert StableOn(Next(link), q, rest);
  }

  lemma ScanBehindQuiet(h: seq<byte>, b: seq<byte>, link: Link)
    requires SYNC0 !in h && b != []
    ensures Scan(Next(link), h + b) == Scan(Next(link), b)
  {
    forall j | 0 <= j < |h| ensures !WordAt(h + b, j) {
      assert (h + b)[j] == h[j];
    }
    ScanNoise(h, b, link);
  }

  lemma GroundReturns(h: seq<byte>, inner: seq<byte>, counted: bool, more: seq<byte>, u: seq<byte>,
                      fs: seq<Frame>, link: Link)
    requires SYNC0 !in h && TurnedDown(inner, counted, link) && SYNC0 !in u && AllSendable(fs, link) && fs != []
    requires (inner + more)[2..] == u + EncodeAll(Enc(link), fs)
    ensures Scan(Next(link), h + (inner + more)) == Scanned(fs, if counted then 1 else 0, [])
  {
    ScanBehindQuiet(h, inner + more, link);
    SkipsFirst(inner, counted, more, link);
    RoundTrip(u, fs, link);
  }

  /** The candidate q holds another, and r of the frame g behind the damage; z is what is left of g. */
  lemma LostBetween(q: seq<byte>, h: seq<byte>, inner: seq<byte>, counted: bool, r: seq<byte>, z: seq<byte>,
                    u: seq<byte>, g: Frame, fs: seq<Frame>, link: Link)
    requires TurnedDown(q, true, link) && q[2..] == h + (inner + r) && TurnedDown(inner, counted, link)
    requires SYNC0 !in h && SYNC0 !in r && SYNC0 !in z && SYNC0 !in u
    requires Sendable(g, link) && AllSendable(fs, link)
    requires (inner + (r + z))[2..] == u + Encode(g, link)
    ensures var s, n := q + (z + EncodeAll(Enc(link), fs)), if counted then 2 else 1;
            Scan(Next(link), s) == Scanned([g] + fs, n, []) && Run(Next(link), IDLE, s) == Core([], fs, n)
  {
    var rest := EncodeAll(Enc(link), fs);
    RescanPasses(Core([], [], 1), h, inner, counted, r, link);
    FirmwareGoesOn(q, Counted(Core([], [], 1), counted), z, fs, link);
    SkipsFirst(q, true, z + rest, link);
    Rearranged(q, h, inner, r, z, rest);
    Rearranged2(inner, r + z, u, Encode(g, link), rest);
    GroundReturns(h, inner, counted, r + z + rest, u, [g] + fs, link);
  }

  lemma Rearranged(q: seq<byte>, h: seq<byte>, inner: seq<byte>, r: seq<byte>, z: seq<byte>, rest: seq<byte>)
    requires |q| > 2 && q[2..] == h + (inner + r)
    ensures (q + (z + rest))[2..] == h + (inner + (r + z + rest))
  {
  }

  lemma Rearranged2(inner: seq<byte>, m: seq<byte>, u: seq<byte>, e: seq<byte>, rest: seq<byte>)
    requires |inner| > 2 && (inner + m)[2..] == u + e
    ensures (inner + (m + rest))[2..] == u + (e + rest)
  {
    assert (inner + (m + rest))[2..] == (inner + m)[2..] + rest;
  }

  // ---- The damaged frame and the one behind -------------------------------------------------

  /** Where a rejected candidate is decided. */
  function CandidateEnd(b: seq<byte>, link: Link): nat
    requires StartsWithSync(b) && (Judge(b, link) == BadLength || Judge(b, link) == BadCrc)
  {
    if Judge(b, link) == BadLength then HEADER_SIZE else OVERHEAD + LengthField(b)
  }

  /** d, which stands where a frame was sent, holds a second sync word at p and otherwise no first sync
      byte. With g behind it, the candidate from p is rejected behind the start of g, and the candidate
      from the front for its check field, there or later. All of this is decided before the next frame. */
  predicate ReachesInto(d: seq<byte>, p: nat, g: Frame, link: Link)
    requires |g.payload| < 0x1_0000
  {
    var s := d + Encode(g, link);
    2 <= p && p + 2 <= |d| && SYNC0 !in d[2..p] && SYNC0 !in d[p + 2..] &&
    StartsWithSync(s) && Judge(s, link) == BadCrc &&
    StartsWithSync(s[p..]) && (Judge(s[p..], link) == BadLength || Judge(s[p..], link) == BadCrc) &&
    |d| < p + CandidateEnd(s[p..], link) <= CandidateEnd(s, link)
  }

  lemma RejectedIsTurnedDown(b: seq<byte>, link: Link)
    requires StartsWithSync(b) && (Judge(b, link) == BadLength || Judge(b, link) == BadCrc)
    ensures CandidateEnd(b, link) <= |b|
    ensures TurnedDown(b[..CandidateEnd(b, link)], Judge(b, link) == BadCrc, link)
  {
    if Judge(b, link) == BadLength { BadLengthIsTurnedDown(b, link); } else { BadCrcIsTurnedDown(b, link); }
  }

  lemma NoSyncBehindFirst(g: Frame, link: Link)
    requires Sendable(g, link) && Tame(g, true, link)
    ensures SYNC0 !in Encode(g, link)[1..]
  {
    assert Encode(g, link)[1..] == [SYNC1] + (Body(g) + PutLe16(link.check(Body(g))));
  }

  /** Cut d + e at p, k and m. */
  lemma Pieces(d: seq<byte>, e: seq<byte>, p: nat, k: nat, m: nat)
    requires 2 <= p && p + 2 <= |d| < k <= m <= |d| + |e|
    ensures var s := d + e;
            s[..m][2..] == d[2..p] + (s[p..k] + s[k..m]) && s[p..][..k - p] == s[p..k]
    ensures var s := d + e;
            (s[p..k] + (s[k..m] + s[m..]))[2..] == d[p + 2..] + e && s == s[..m] + s[m..]
  {
    var s := d + e;
    assert s[p..k] + (s[k..m] + s[m..]) == s[p..];
  }

  lemma NoSyncAmong(d: seq<byte>, e: seq<byte>, k: nat, m: nat)
    requires |d| < k <= m <= |d| + |e| && SYNC0 !in e[1..]
    ensures SYNC0 !in (d + e)[k..m]
  {
    forall i | k <= i < m ensures (d + e)[i] != SYNC0 {
      assert (d + e)[i] == e[1..][i - |d| - 1];
    }
  }

  /** The ground decoder returns g and what is behind it, the firmware only what is behind it. */
  ghost predicate SwallowedIn(s: seq<byte>, g: Frame, fs: seq<Frame>, link: Link) {
    Scan(Next(link), s).frames == [g] + fs && Run(Next(link), IDLE, s).log == fs &&
    Scan(Next(link), s).crcErrors == Run(Next(link), IDLE, s).crcErrors
  }

  lemma NextIsSwallowed(d: seq<byte>, p: nat, g: Frame, fs: seq<Frame>, link: Link)
    requires Sendable(g, link) && Tame(g, true, link) && AllSendable(fs, link) && ReachesInto(d, p, g, link)
    ensures SwallowedIn(d + Encode(g, link) + EncodeAll(Enc(link), fs), g, fs, link)
  {
    var s := d + Encode(g, link);
    var m, k := CandidateEnd(s, link), p + CandidateEnd(s[p..], link);
    RejectedIsTurnedDown(s, link);
    RejectedIsTurnedDown(s[p..], link);
    NoSyncBehindFirst(g, link);
    CutAndLost(d, p, k, m, Judge(s[p..], link) == BadCrc, g, fs, link);
  }

  lemma CutAndLost(d: seq<byte>, p: nat, k: nat, m: nat, counted: bool, g: Frame, fs: seq<Frame>, link: Link)
    requires Sendable(g, link) && SYNC0 !in Encode(g, link)[1..] && AllSendable(fs, link)
    requires 2 <= p && p + 2 <= |d| < k <= m <= |d| + |Encode(g, link)|
    requires SYNC0 !in d[2..p] && SYNC0 !in d[p + 2..]
    requires TurnedDown((d + Encode(g, link))[..m], true, link)
    requires TurnedDown((d + Encode(g, link))[p..][..k - p], counted, link)
    ensures SwallowedIn(d + Encode(g, link) + EncodeAll(Enc(link), fs), g, fs, link)
  {
    var s := d + Encode(g, link);
    NoSyncAmong(d, Encode(g, link), k, m);
    NoSyncAmong(d, Encode(g, link), m, |s|);
    Pieces(d, Encode(g, link), p, k, m);
    assert s[m..|s|] == s[m..];
    LostBetween(s[..m], d[2..p], s[p..k], counted, s[k..m], s[m..], d[p + 2..], g, fs, link);
    ThirdBehind(s[..m], s[m..], EncodeAll(Enc(link), fs));
  }

  lemma ThirdBehind(a: seq<byte>, b: seq<byte>, c: seq<byte>)
    ensures a + b + c == a + (b + c)
  {
  }

  lemma DamageInFront(d: Damage, e: seq<byte>, rest: seq<byte>)
    requires Possible(d, e)
    ensures Possible(d, e + rest) && Apply(d, e + rest) == Apply(d, e) + rest
  {
    assert (e + rest)[..d.at] == e[..d.at] && (e + rest)[Behind(d)..] == e[Behind(d)..] + rest;
  }

  /** One byte of the first frame of a run changed, put in or lost, so that it reaches into the second:
      the firmware loses that, which the ground decoder returns. */
  lemma OneByteSwallowsNext(f: Frame, d: Damage, p: nat, g: Frame, fs: seq<Frame>, w: seq<byte>, link: Link)
    requires AllSendable([f, g] + fs, link) && w == EncodeAll(Enc(link), [f, g] + fs)
    requires Sendable(f, link) && Possible(d, Encode(f, link)) && Possible(d, w)
    requires Sendable(g, link) && Tame(g, true, link) && ReachesInto(Apply(d, Encode(f, link)), p, g, link)
    ensures SwallowedIn(Apply(d, w), g, fs, link)
  {
    FirstTwo(f, g, fs, link);
    DamageInFront(d, Encode(f, link), Encode(g, link) + EncodeAll(Enc(link), fs));
    NextIsSwallowed(Apply(d, Encode(f, link)), p, g, fs, link);
    ThirdBehind(Apply(d, Encode(f, link)), Encode(g, link), EncodeAll(Enc(link), fs));
  }

  lemma FirstTwo(f: Frame, g: Frame, fs: seq<Frame>, link: Link)
    requires AllSendable([f, g] + fs, link)
    ensures Sendable(f, link) && Sendable(g, link) && AllSendable(fs, link)
    ensures EncodeAll(Enc(link), [f, g] + fs) == Encode(f, link) + (Encode(g, link) + EncodeAll(Enc(link), fs))
  {
    var all := [f, g] + fs;
    assert all[0] == f && all[1] == g && all[1..] == [g] + fs && all[1..][1..] == fs;
    forall h | h in fs ensures Sendable(h, link) {
      assert h in all;
    }
  }
}
