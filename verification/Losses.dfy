/** How one damaged byte loses the firmware a frame that the ground decoder recovers: a rejected
    candidate that contains another rejected candidate, with the start of a frame inside that. */
module Losses {
  import opened Bytes
  import opened Framing
  import opened Scanner
  import opened Decoder
  import opened Refinement
  import opened Recovery
  import opened OneByte

  // ---- Passing over bytes, and over candidates ---------------------------------------------

  lemma ScanSkip(next: Decider, b: seq<byte>, n: nat, counted: bool)
    requires next(b) == Skip(n, counted) && 0 < n <= |b|
    ensures Scan(next, b).frames == Scan(next, b[n..]).frames
    ensures Scan(next, b).crcErrors == Scan(next, b[n..]).crcErrors + if counted then 1 else 0
    ensures Scan(next, b).rest == Scan(next, b[n..]).rest
  {
  }

  /** The ground decoder passes over bytes that start no sync word. */
  lemma ScanNoise(noise: seq<byte>, b: seq<byte>, link: Link)
    requires Wordless(noise + b, 0, |noise|) && b != []
    ensures Scan(Next(link), noise + b) == Scan(Next(link), b)
  {
    var s := noise + b;
    forall i | 0 <= i < |noise| ensures !StartsWithSync(s[i..]) {
      assert !WordAt(s, i);
    }
    SkipNoise(s, |noise|, link);
    assert s[|noise|..] == b;
  }

  /** So does an idle receiver, holding on to no more than the last of them. */
  lemma {:induction false} IdleNoise(c: Core, t: seq<byte>, link: Link)
    requires c.pending == [] && Wordless(t, 0, |t|)
    ensures var d := c.(pending := if t == [] then [] else Live(t[|t| - 1..]));
            Run(Next(link), c, t) == d && Replay(Next(link), c, t) == d
    decreases |t|
  {
    if t != [] {
      var n := |t| - 1;
      var u, b := t[..n], t[n];
      LastOff(t);
      IdleNoise(c, u, link);
      RunConcat(Next(link), c, u, [b]);
      ReplayConcat(Next(link), c, u, [b]);
      if n > 0 { NextNoise(c, t[n - 1], b, link); } else { FirstNoise(c, b, link); }
    }
  }

  lemma LastOff(t: seq<byte>)
    requires t != [] && Wordless(t, 0, |t|)
    ensures var u, b := t[..|t| - 1], t[|t| - 1];
            t == u + [b] && t[|t| - 1..] == [b] && Wordless(u, 0, |u|)
    ensures |t| > 1 ==> t[..|t| - 1][|t| - 2..] == [t[|t| - 2]] && !(t[|t| - 2] == SYNC0 && t[|t| - 1] == SYNC1)
  {
    var u := t[..|t| - 1];
    forall j | 0 <= j < |u| ensures !WordAt(u, j) {
      assert !WordAt(t, j);
    }
    if |t| > 1 { assert !WordAt(t, |t| - 2); }
  }

  lemma OneByteRun(next: Decider, c: Core, b: byte)
    ensures Replay(next, c, [b]) == Advance(next, c, b).core
    ensures Advance(next, c, b).Kept? ==> Run(next, c, [b]) == Advance(next, c, b).core
  {
    assert [b][1..] == [];
  }

  lemma FirstNoise(c: Core, b: byte, link: Link)
    requires c.pending == []
    ensures Run(Next(link), c, [b]) == Replay(Next(link), c, [b]) == c.(pending := Live([b]))
  {
    assert [] + [b] == [b] && Next(link)([b]).Wait?;
    OneByteRun(Next(link), c, b);
  }

  lemma NextNoise(c: Core, a: byte, b: byte, link: Link)
    requires c.pending == [] && !(a == SYNC0 && b == SYNC1)
    ensures var d := c.(pending := Live([a]));
            Run(Next(link), d, [b]) == Replay(Next(link), d, [b]) == c.(pending := Live([b]))
  {
    if a == SYNC0 {
      var d := c.(pending := [SYNC0]);
      assert [SYNC0] + [b] == [SYNC0, b] && Next(link)([SYNC0, b]) == Skip(1, false);
      OneByteRun(Next(link), d, b);
    } else {
      FirstNoise(c, b, link);
    }
  }

  /** Too few bytes for it add no frame. */
  lemma {:induction false} TooShortFor(c: Core, bytes: seq<byte>, f: Frame, link: Link)
    requires f !in c.log && |c.pending| + |bytes| < OVERHEAD + |f.payload|
    ensures f !in Replay(Next(link), c, bytes).log
    decreases |bytes|
  {
    if bytes != [] {
      var a := Advance(Next(link), c, bytes[0]);
      assert |a.core.pending| <= |c.pending| + 1;
      TooShortFor(a.core, bytes[1..], f, link);
    }
  }

  /** A candidate rejected, and not before its last byte. */
  predicate TurnedDown(q: seq<byte>, counted: bool, link: Link) {
    |q| > 2 && q[0] == SYNC0 && Decide(q, link) == Skip(2, counted) &&
    forall k :: 0 <= k < |q| ==> Decide(q[..k], link).Wait?
  }

  function Counted(c: Core, counted: bool): Core {
    c.(crcErrors := c.crcErrors + if counted then 1 else 0)
  }

  lemma AllButLast(c: Core, q: seq<byte>, counted: bool, link: Link)
    requires c.pending == [] && TurnedDown(q, counted, link)
    ensures var n, next := |q| - 1, Next(link);
            q == q[..n] + [q[n]] && Run(next, c, q[..n]) == Replay(next, c, q[..n]) == c.(pending := q[..n]) &&
            Advance(next, c.(pending := q[..n]), q[n]) == Rejected(Counted(c, counted), q[2..])
  {
    var next, n := Next(link), |q| - 1;
    var u := q[..n];
    forall k | 0 < k <= n ensures next(u[..k]).Wait? {
      assert u[..k] == q[..k];
    }
    UndecidedPilesUp(next, c, u);
    assert q == u + [q[n]];
  }

  /** An idle receiver rescans it. */
  lemma CandidateIsRescanned(c: Core, q: seq<byte>, counted: bool, link: Link)
    requires c.pending == [] && TurnedDown(q, counted, link)
    ensures Run(Next(link), c, q) == Replay(Next(link), Counted(c, counted), q[2..])
  {
    var n := |q| - 1;
    AllButLast(c, q, counted, link);
    RunConcat(Next(link), c, q[..n], [q[n]]);
    assert [q[n]][1..] == [];
  }

  /** In a rescan it is dropped whole. */
  lemma RescanDrops(c: Core, q: seq<byte>, counted: bool, link: Link)
    requires c.pending == [] && TurnedDown(q, counted, link)
    ensures Replay(Next(link), c, q) == Counted(c, counted)
  {
    var n := |q| - 1;
    AllButLast(c, q, counted, link);
    ReplayConcat(Next(link), c, q[..n], [q[n]]);
    assert [q[n]][1..] == [];
  }

  lemma BadLengthIsTurnedDown(b: seq<byte>, link: Link)
    requires StartsWithSync(b) && Judge(b, link) == BadLength
    ensures HEADER_SIZE <= |b| && TurnedDown(b[..HEADER_SIZE], false, link)
  {
    assert LengthField(b[..HEADER_SIZE]) == LengthField(b);
  }

  lemma BadCrcIsTurnedDown(b: seq<byte>, link: Link)
    requires StartsWithSync(b) && Judge(b, link) == BadCrc
    ensures OVERHEAD + LengthField(b) <= |b| && TurnedDown(b[..OVERHEAD + LengthField(b)], true, link)
  {
    var n := LengthField(b);
    var q := b[..OVERHEAD + n];
    assert q[2..HEADER_SIZE + n] == b[2..HEADER_SIZE + n];
    forall k | 0 <= k < |q| ensures Decide(q[..k], link).Wait? {
      if HEADER_SIZE <= k {
        assert LengthField(q[..k]) == n;
      }
    }
  }

  // ---- A frame within a frame --------------------------------------------------------------

  function Inner(f: Frame, link: Link): (s: seq<byte>)
    requires |f.payload| < 0x1_0000
    ensures |s| == 12 + |f.payload|
  {
    SYNC + Encode(f, link)
  }

  /** A frame whose payload happens to hold a sync word and another frame. */
  function Carrier(f: Frame, link: Link): Frame
    requires |f.payload| < 0x1_0000
  {
    Frame(0, 0, Inner(f, link))
  }

  function LastByte(g: Frame, link: Link): byte
    requires |g.payload| < 0x1_0000
  {
    Encode(g, link)[OVERHEAD + |g.payload| - 1]
  }

  /** The frame g with its last byte changed. */
  function LastChanged(g: Frame, y: byte, link: Link): (s: seq<byte>)
    requires |g.payload| < 0x1_0000
    ensures |s| == OVERHEAD + |g.payload|
  {
    Encode(g, link)[OVERHEAD + |g.payload| - 1 := y]
  }

  lemma LastByteIsNoticed(g: Frame, y: byte, link: Link)
    requires Sendable(g, link) && y != LastByte(g, link)
    ensures TurnedDown(LastChanged(g, y, link), true, link)
    ensures LastChanged(g, y, link)[2..] == Body(g) + [PutLe16(link.check(Body(g)))[0], y]
  {
    var e, q, n := Encode(g, link), LastChanged(g, y, link), |g.payload|;
    EncodedFields(g, link);
    EncodedIsGood(g, link);
    assert q[2..HEADER_SIZE + n] == e[2..HEADER_SIZE + n];
    assert LengthField(q) == n && StartsWithSync(q);
    forall k | 0 <= k < |q| ensures Decide(q[..k], link).Wait? {
      assert q[..k] == e[..k];
      if k >= 2 { PartialIsIncomplete(g, k, link); }
    }
  }

  /** What the carrier's body starts with. */
  function CarrierHeader(n: u16): (h: seq<byte>)
    ensures |h| == 6
  {
    [n % 0x100, n / 0x100, 0, 0, 0, 0]
  }

  lemma HeaderIsWordless(n: u16, rest: seq<byte>)
    requires n < 0x5953
    ensures Wordless(CarrierHeader(n), 0, 6) && Wordless(CarrierHeader(n) + rest, 0, 6)
  {
    var h := CarrierHeader(n);
    assert !WordAt(h, 0);
    forall j | 0 <= j < 6 ensures !WordAt(h + rest, j) {
    }
  }

  lemma CarrierBytes(f: Frame, link: Link)
    requires |f.payload| < 0x5947
    ensures Body(Carrier(f, link)) == CarrierHeader(12 + |f.payload|) + Inner(f, link)
  {
  }

  /** A candidate with a wrong check field, and behind its sync word what the carrier holds. */
  predicate IsDamagedCarrier(q: seq<byte>, f: Frame, t: seq<byte>, link: Link) {
    |f.payload| < 0x5947 && |t| == 2 && TurnedDown(q, true, link) &&
    q[2..] == CarrierHeader(12 + |f.payload|) + (Inner(f, link) + t)
  }

  lemma DamagedCarrier(f: Frame, g: Frame, y: byte, q: seq<byte>, link: Link) returns (t: seq<byte>)
    requires |f.payload| < 0x5947 && Sendable(g, link) && y != LastByte(g, link) && q == LastChanged(g, y, link)
    requires Body(g) == CarrierHeader(12 + |f.payload|) + Inner(f, link)
    ensures IsDamagedCarrier(q, f, t, link)
  {
    t := [PutLe16(link.check(Body(g)))[0], y];
    LastByteIsNoticed(g, y, link);
    Regroup(CarrierHeader(12 + |f.payload|), Inner(f, link), t);
  }

  lemma Regroup(a: seq<byte>, b: seq<byte>, c: seq<byte>)
    ensures a + b + c == a + (b + c)
  {
  }

  lemma InnerIsRejected(f: Frame, t: seq<byte>, link: Link)
    requires Sendable(f, link) && link.limit < 0x5953
    ensures var b := Inner(f, link) + t;
            Decide(b, link) == Skip(2, false) && b[2..] == Encode(f, link) + t &&
            StartsWithSync(b[..HEADER_SIZE]) && LengthField(b[..HEADER_SIZE]) > link.limit
  {
    EncodedFields(f, link);
    var b := Inner(f, link) + t;
    assert b[2] == SYNC0 && b[3] == SYNC1;
    assert LengthField(b) == 0x5953 == LengthField(b[..HEADER_SIZE]);
  }

  lemma ShortScan(b: seq<byte>, link: Link)
    requires |b| == 2
    ensures Scan(Next(link), b).frames == [] && Scan(Next(link), b).crcErrors == 0
  {
    if b == SYNC {
      assert Next(link)(b).Wait?;
    } else {
      assert Next(link)(b) == Skip(1, false) && Next(link)(b[1..]).Wait?;
    }
  }

  lemma GroundFinds(f: Frame, t: seq<byte>, link: Link)
    requires Sendable(f, link) && |t| == 2 && link.limit < 0x5953 && 12 + |f.payload| < 0x5953
    ensures var r := Scan(Next(link), CarrierHeader(12 + |f.payload|) + (Inner(f, link) + t));
            r.frames == [f] && r.crcErrors == 0
  {
    var b := Inner(f, link) + t;
    HeaderIsWordless(12 + |f.payload|, b);
    ScanNoise(CarrierHeader(12 + |f.payload|), b, link);
    InnerIsRejected(f, t, link);
    ScanSkip(Next(link), b, 2, false);
    DecodesEncoded(f, link);
    NextIsSound(link);
    NextIsStable(link);
    ScanOne(Next(link), Encode(f, link), f, t);
    ShortScan(t, link);
  }

  lemma FirmwareLoses(c: Core, f: Frame, t: seq<byte>, link: Link)
    requires Sendable(f, link) && |t| == 2 && link.limit < 0x5953 && 12 + |f.payload| < 0x5953
    requires c.pending == [] && f !in c.log
    ensures f !in Replay(Next(link), c, CarrierHeader(12 + |f.payload|) + (Inner(f, link) + t)).log
  {
    var h, b := CarrierHeader(12 + |f.payload|), Inner(f, link) + t;
    HeaderIsWordless(12 + |f.payload|, b);
    IdleNoise(c, h, link);
    assert h[5..] == [0];
    ReplayConcat(Next(link), c, h, b);
    InnerIsRejected(f, t, link);
    BadLengthIsTurnedDown(b, link);
    RescanDrops(c, b[..HEADER_SIZE], false, link);
    assert b == b[..HEADER_SIZE] + b[HEADER_SIZE..];
    ReplayConcat(Next(link), c, b[..HEADER_SIZE], b[HEADER_SIZE..]);
    TooShortFor(c, b[HEADER_SIZE..], f, link);
  }

  lemma GroundSide(q: seq<byte>, f: Frame, t: seq<byte>, link: Link)
    requires Sendable(f, link) && link.limit < 0x5953 && IsDamagedCarrier(q, f, t, link)
    ensures Scan(Next(link), q).frames == [f] && Scan(Next(link), q).crcErrors == 1
  {
    ScanSkip(Next(link), q, 2, true);
    GroundFinds(f, t, link);
  }

  lemma FirmwareSide(q: seq<byte>, f: Frame, t: seq<byte>, link: Link)
    requires Sendable(f, link) && link.limit < 0x5953 && IsDamagedCarrier(q, f, t, link)
    ensures f !in Run(Next(link), IDLE, q).log
  {
    CandidateIsRescanned(IDLE, q, true, link);
    FirmwareLoses(Core([], [], 1), f, t, link);
  }

  /** The ground decoder returns f and nothing else; the firmware does not. */
  ghost predicate GroundOnly(s: seq<byte>, f: Frame, link: Link) {
    Scan(Next(link), s).frames == [f] && Scan(Next(link), s).crcErrors == 1 && f !in Run(Next(link), IDLE, s).log
  }

  lemma FoundAndLost(q: seq<byte>, f: Frame, t: seq<byte>, link: Link)
    requires Sendable(f, link) && link.limit < 0x5953 && IsDamagedCarrier(q, f, t, link)
    ensures GroundOnly(q, f, link)
  {
    GroundSide(q, f, t, link);
    FirmwareSide(q, f, t, link);
  }

  lemma CarrierIsSendable(f: Frame, link: Link)
    requires Sendable(f, link) && 12 + |f.payload| <= link.limit < 0x5953
    ensures Sendable(Carrier(f, link), link)
  {
  }

  lemma CarrierWithBadEnd(f: Frame, y: byte, q: seq<byte>, link: Link) returns (t: seq<byte>)
    requires Sendable(f, link) && 12 + |f.payload| <= link.limit < 0x5953 && y != LastByte(Carrier(f, link), link)
    requires q == LastChanged(Carrier(f, link), y, link)
    ensures IsDamagedCarrier(q, f, t, link)
  {
    CarrierBytes(f, link);
    CarrierIsSendable(f, link);
    t := DamagedCarrier(f, Carrier(f, link), y, q, link);
  }

  /** Whatever the frame and its size, as long as a frame that carries it can be sent: one byte of
      that changed on the way, and the ground decoder finds the frame inside where the firmware does
      not. */
  lemma OneByteTellsThemApart(f: Frame, y: byte, s: seq<byte>, link: Link)
    requires Sendable(f, link) && 12 + |f.payload| <= link.limit < 0x5953 && y != LastByte(Carrier(f, link), link)
    requires s == LastChanged(Carrier(f, link), y, link)
    ensures GroundOnly(s, f, link)
  {
    var t := CarrierWithBadEnd(f, y, s, link);
    FoundAndLost(s, f, t, link);
  }
}
