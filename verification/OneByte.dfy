/** One byte of a run of frames changed, put in or lost. If the frames contain no second sync word (for a
    lost byte, not even the first byte of one), it swallows no other frame: the receiver recovers
    whatever the ground decoder does. */
module OneByte {
  import opened Bytes
  import opened Framing
  import opened Scanner
  import opened Decoder
  import opened Refinement
  import opened SerialLink
  import opened Recovery

  lemma {:induction false} WordlessIsPassedOver(t: seq<byte>, link: Link)
    requires Wordless(t, 0, |t|)
    ensures PassedOver(Next(link), t)
    decreases |t|
  {
    if |t| >= 2 {
      WordlessTail(t);
      WordlessIsPassedOver(t[1..], link);
      OnePassed(Next(link), t);
    } else {
      ShortPassed(Next(link), t);
    }
  }

  lemma OnePassed(next: Decider, t: seq<byte>)
    requires |t| >= 2 && next(t) == Skip(1, false) && PassedOver(next, t[1..]) && t[1..][|t| - 2..] == t[|t| - 1..]
    ensures PassedOver(next, t)
  {
    assert Scan(next, t) == Prepend([], 0, Scan(next, t[1..]));
  }

  lemma ShortPassed(next: Decider, t: seq<byte>)
    requires |t| < 2 && next(t).Wait?
    ensures PassedOver(next, t)
  {
  }

  lemma WordlessTail(t: seq<byte>)
    requires |t| >= 2 && Wordless(t, 0, |t|)
    ensures !StartsWithSync(t) && Wordless(t[1..], 0, |t[1..]|) && t[1..][|t| - 2..] == t[|t| - 1..]
  {
    assert !WordAt(t, 0);
    forall j | 0 <= j < |t| - 1 ensures !WordAt(t[1..], j) {
      assert !WordAt(t, j + 1);
    }
  }

  lemma LinkPassesOver(link: Link)
    ensures PassesOver(Next(link))
  {
    forall t ensures PassedIfWordless(Next(link), t) {
      if Wordless(t, 0, |t|) { WordlessIsPassedOver(t, link); }
    }
    forall b: byte | b != SYNC1 ensures Lone(Next(link), b) {
    }
  }

  // ---- Frames that contain no second sync word ----------------------------------------------

  /** Behind its own, the encoded frame has no sync word; if strict, not even its first byte. This is
      something its sender can look at. */
  predicate Tame(f: Frame, strict: bool, link: Link)
    requires |f.payload| < 0x1_0000
  {
    var t := Body(f) + PutLe16(link.check(Body(f)));
    Wordless(t, 0, |t|) && (strict ==> SYNC0 !in t)
  }

  ghost predicate AllTame(fs: seq<Frame>, strict: bool, link: Link) {
    forall f :: f in fs ==> Sendable(f, link) && Tame(f, strict, link)
  }

  lemma TameBytes(f: Frame, strict: bool, r: nat, link: Link)
    requires Sendable(f, link) && Tame(f, strict, link) && r < |Encode(f, link)|
    ensures strict && r > 0 ==> Encode(f, link)[r] != SYNC0
    ensures r > 0 ==> !WordAt(Encode(f, link), r)
    ensures Encode(f, link)[0] == SYNC0 && Encode(f, link)[1] == SYNC1
  {
    var t := Body(f) + PutLe16(link.check(Body(f)));
    assert Encode(f, link) == SYNC + t;
    if r >= 2 {
      assert Encode(f, link)[r] == t[r - 2] && t[r - 2] in t;
      assert !WordAt(t, r - 2);
      assert r + 1 < |Encode(f, link)| ==> Encode(f, link)[r + 1] == t[r - 1];
    }
  }

  /** From z on, w holds the frame f, and behind it nothing or the start of another. */
  predicate FrameIn(w: seq<byte>, z: nat, f: Frame, strict: bool, link: Link) {
    Sendable(f, link) && Tame(f, strict, link) &&
    var e := z + |Encode(f, link)|;
    e <= |w| && w[z..e] == Encode(f, link) && (e < |w| ==> w[e] == SYNC0)
  }

  /** Wherever a sync word is, a frame starts. */
  ghost predicate Framed(w: seq<byte>, strict: bool, link: Link) {
    forall z: nat :: WordAt(w, z) ==> exists f :: FrameIn(w, z, f, strict, link)
  }

  lemma {:induction false} SentIsFramed(fs: seq<Frame>, strict: bool, link: Link)
    requires AllTame(fs, strict, link)
    ensures Framed(EncodeAll(Enc(link), fs), strict, link)
    ensures fs != [] ==> EncodeAll(Enc(link), fs) != [] && EncodeAll(Enc(link), fs)[0] == SYNC0
    decreases |fs|
  {
    if fs != [] {
      assert fs[0] in fs;
      SentIsFramed(fs[1..], strict, link);
      FrameInFront(fs[0], EncodeAll(Enc(link), fs[1..]), strict, link);
    }
  }

  lemma FrameInFront(f: Frame, rest: seq<byte>, strict: bool, link: Link)
    requires Sendable(f, link) && Tame(f, strict, link) && Framed(rest, strict, link)
    requires rest != [] ==> rest[0] == SYNC0
    ensures Framed(Encode(f, link) + rest, strict, link) && Encode(f, link)[0] == SYNC0
  {
    EncodedFields(f, link);
    forall z: nat | WordAt(Encode(f, link) + rest, z)
      ensures exists g :: FrameIn(Encode(f, link) + rest, z, g, strict, link)
    {
      var g := FrameThere(f, Encode(f, link), rest, strict, z, link);
    }
  }

  lemma FrameThere(f: Frame, e: seq<byte>, rest: seq<byte>, strict: bool, z: nat, link: Link) returns (g: Frame)
    requires Sendable(f, link) && Tame(f, strict, link) && e == Encode(f, link) && Framed(rest, strict, link)
    requires (rest != [] ==> rest[0] == SYNC0) && WordAt(e + rest, z)
    ensures FrameIn(e + rest, z, g, strict, link)
  {
    if z < |e| {
      g := f;
      FirstWord(f, rest, strict, z, link);
      assert (e + rest)[0..|e|] == e;
    } else {
      assert WordAt(rest, z - |e|);
      g :| FrameIn(rest, z - |e|, g, strict, link);
      FrameBehind(e, rest, z - |e|, g, strict, link);
    }
  }

  lemma FirstWord(f: Frame, rest: seq<byte>, strict: bool, z: nat, link: Link)
    requires Sendable(f, link) && Tame(f, strict, link) && (rest != [] ==> rest[0] == SYNC0)
    requires z < |Encode(f, link)| && WordAt(Encode(f, link) + rest, z)
    ensures z == 0
  {
    var e := Encode(f, link);
    TameBytes(f, strict, z, link);
    assert z + 1 < |e| ==> WordAt(e, z);
  }

  lemma FrameBehind(e: seq<byte>, rest: seq<byte>, z: nat, g: Frame, strict: bool, link: Link)
    requires FrameIn(rest, z, g, strict, link)
    ensures FrameIn(e + rest, |e| + z, g, strict, link)
  {
    SliceBehind(e, rest, z, |Encode(g, link)|);
  }

  lemma SliceBehind(e: seq<byte>, t: seq<byte>, n: nat, k: nat)
    requires n + k <= |t|
    ensures (e + t)[|e| + n..|e| + n + k] == t[n..n + k]
  {
  }

  /** What starts with a whole frame, or with a part of one, is not rejected. */
  lemma IntactIsNotRejected(s: seq<byte>, z: nat, k: nat, f: Frame, link: Link)
    requires Sendable(f, link) && z + |Encode(f, link)| <= |s|
    requires s[z..z + |Encode(f, link)|] == Encode(f, link)
    ensures !RejectedAt(Next(link), s, z, k)
  {
    if z <= k <= |s| {
      var e, q := Encode(f, link), s[z..k];
      DecodesEncoded(f, link);
      NextIsStable(link);
      if |q| < |e| {
        assert q == s[z..z + |e|][..|q|] == e[..|q|];
        assert Next(link)(e[..|q|]).Wait?;
      } else {
        assert q == e + q[|e|..];
        assert StableOn(Next(link), e, q[|e|..]);
      }
    }
  }

  lemma StartsHere(s: seq<byte>, z: nat, k: nat, link: Link)
    requires RejectedAt(Next(link), s, z, k)
    ensures z + HEADER_SIZE <= k <= |s| && WordAt(s, z)
  {
    assert StartsWithSync(s[z..k]) && s[z] == s[z..k][0] && s[z + 1] == s[z..k][1];
  }

  lemma NoSecondWord(w: seq<byte>, a: nat, z: nat, f: Frame, strict: bool, link: Link)
    requires FrameIn(w, a, f, strict, link) && a < z && z + 1 < a + |Encode(f, link)|
    ensures !WordAt(w, z)
  {
    SliceAt(w, a, Encode(f, link), z);
    SliceAt(w, a, Encode(f, link), z + 1);
    TameBytes(f, strict, z - a, link);
  }

  lemma SliceAt(w: seq<byte>, a: nat, e: seq<byte>, z: nat)
    requires a <= z < a + |e| <= |w| && w[a..a + |e|] == e
    ensures w[z] == e[z - a]
  {
  }

  lemma FrameStarts(w: seq<byte>, z: nat, f: Frame, strict: bool, link: Link)
    requires FrameIn(w, z, f, strict, link)
    ensures WordAt(w, z)
  {
    SliceAt(w, z, Encode(f, link), z);
    SliceAt(w, z, Encode(f, link), z + 1);
    EncodedFields(f, link);
  }

  // ---- Damage ------------------------------------------------------------------------------

  datatype Damage = Changed(at: nat, value: byte) | Inserted(at: nat, value: byte) | Lost(at: nat)

  /** How many bytes are there in place of those from `at` to Behind. */
  function Put(d: Damage): nat {
    if d.Lost? then 0 else 1
  }

  function Behind(d: Damage): nat {
    if d.Inserted? then d.at else d.at + 1
  }

  predicate Possible(d: Damage, w: seq<byte>) {
    Behind(d) <= |w|
  }

  function Apply(d: Damage, w: seq<byte>): seq<byte>
    requires Possible(d, w)
  {
    w[..d.at] + (if d.Lost? then [] else [d.value]) + w[Behind(d)..]
  }

  /** Where a byte behind the damage goes. */
  function Moved(d: Damage, y: nat): nat
    requires y >= Behind(d)
  {
    y - Behind(d) + d.at + Put(d)
  }

  /** The byte is where it was, or behind the damage moved. */
  predicate Kept(s: seq<byte>, d: Damage, w: seq<byte>, y: nat)
    requires y < |w| && (y < d.at || y >= Behind(d))
  {
    var there := if y < d.at then y else Moved(d, y);
    there < |s| && s[there] == w[y]
  }

  predicate Follows(s: seq<byte>, d: Damage, w: seq<byte>) {
    Possible(d, w) && |s| == |w| - Behind(d) + d.at + Put(d) &&
    forall y: nat :: y < |w| && (y < d.at || y >= Behind(d)) ==> Kept(s, d, w, y)
  }

  lemma ApplyFollows(d: Damage, w: seq<byte>)
    requires Possible(d, w)
    ensures Follows(Apply(d, w), d, w)
  {
    forall y: nat | y < |w| && (y < d.at || y >= Behind(d)) ensures Kept(Apply(d, w), d, w, y) {
      assert y >= Behind(d) ==> w[Behind(d)..][y - Behind(d)] == w[y];
    }
  }

  /** A candidate that starts with bytes the damage brought together. */
  predicate Touches(d: Damage, z: nat) {
    d.at <= z + 1 && z < d.at + Put(d)
  }

  lemma StaysBefore(s: seq<byte>, d: Damage, w: seq<byte>, z: nat, e: seq<byte>)
    requires Follows(s, d, w) && z + |e| <= d.at && w[z..z + |e|] == e
    ensures z + |e| <= |s| && s[z..z + |e|] == e
  {
    forall r | 0 <= r < |e| ensures s[z + r] == e[r] {
      assert Kept(s, d, w, z + r) && w[z + r] == w[z..z + |e|][r];
    }
  }

  lemma StaysBehind(s: seq<byte>, d: Damage, w: seq<byte>, z: nat, e: seq<byte>)
    requires Follows(s, d, w) && Behind(d) <= z && z + |e| <= |w| && w[z..z + |e|] == e
    ensures Moved(d, z) + |e| <= |s| && s[Moved(d, z)..Moved(d, z) + |e|] == e
  {
    forall r | 0 <= r < |e| ensures s[Moved(d, z) + r] == e[r] {
      assert Kept(s, d, w, z + r) && w[z + r] == w[z..z + |e|][r];
    }
  }

  lemma IntactBefore(s: seq<byte>, d: Damage, w: seq<byte>, z: nat, k: nat, f: Frame, strict: bool, link: Link)
    requires Follows(s, d, w) && FrameIn(w, z, f, strict, link) && z + |Encode(f, link)| <= d.at
    ensures !RejectedAt(Next(link), s, z, k)
  {
    StaysBefore(s, d, w, z, Encode(f, link));
    IntactIsNotRejected(s, z, k, f, link);
  }

  lemma IntactBehind(s: seq<byte>, d: Damage, w: seq<byte>, y: nat, k: nat, f: Frame, strict: bool, link: Link)
    requires Follows(s, d, w) && FrameIn(w, y, f, strict, link) && y >= Behind(d)
    ensures !RejectedAt(Next(link), s, Moved(d, y), k)
  {
    StaysBehind(s, d, w, y, Encode(f, link));
    IntactIsNotRejected(s, Moved(d, y), k, f, link);
  }

  lemma WordBefore(s: seq<byte>, d: Damage, w: seq<byte>, z: nat)
    requires Follows(s, d, w) && WordAt(s, z) && z + 1 < d.at
    ensures WordAt(w, z)
  {
    assert Kept(s, d, w, z) && Kept(s, d, w, z + 1);
  }

  lemma WordBehind(s: seq<byte>, d: Damage, w: seq<byte>, z: nat) returns (y: nat)
    requires Follows(s, d, w) && WordAt(s, z) && z >= d.at + Put(d)
    ensures y >= Behind(d) && Moved(d, y) == z && WordAt(w, y)
  {
    y := z - d.at - Put(d) + Behind(d);
    assert Kept(s, d, w, y) && Kept(s, d, w, y + 1);
  }

  /** A rejected candidate starts where the damage is, or is the frame that it lies in. */
  lemma OnlyTheDamaged(s: seq<byte>, d: Damage, w: seq<byte>, z: nat, k: nat, strict: bool, link: Link)
    returns (f: Frame)
    requires Framed(w, strict, link) && Follows(s, d, w) && RejectedAt(Next(link), s, z, k) && !Touches(d, z)
    ensures FrameIn(w, z, f, strict, link) && z + 2 <= d.at < z + |Encode(f, link)|
  {
    StartsHere(s, z, k, link);
    if z + 1 < d.at {
      WordBefore(s, d, w, z);
      f :| FrameIn(w, z, f, strict, link);
      if z + |Encode(f, link)| <= d.at { IntactBefore(s, d, w, z, k, f, strict, link); }
    } else {
      var y := WordBehind(s, d, w, z);
      f :| FrameIn(w, y, f, strict, link);
      IntactBehind(s, d, w, y, k, f, strict, link);
    }
  }

  /** The inner one of two rejected candidates starts where the damage is, the outer one is the frame
      that it lies in. */
  lemma InnerTouches(s: seq<byte>, d: Damage, w: seq<byte>, a: nat, m: nat, z: nat, k: nat, strict: bool, link: Link)
    returns (f: Frame)
    requires Framed(w, strict, link) && Follows(s, d, w) && a + 2 <= z
    requires RejectedAt(Next(link), s, a, m) && RejectedAt(Next(link), s, z, k)
    ensures Touches(d, z) && WordAt(s, z) && z + HEADER_SIZE <= k <= |s|
    ensures FrameIn(w, a, f, strict, link) && a + 2 <= d.at < a + |Encode(f, link)|
  {
    StartsHere(s, z, k, link);
    if !Touches(d, z) {
      var g := OnlyTheDamaged(s, d, w, z, k, strict, link);
      f := OnlyTheDamaged(s, d, w, a, m, strict, link);
      FrameStarts(w, z, g, strict, link);
      NoSecondWord(w, a, z, f, strict, link);
    } else {
      f := OnlyTheDamaged(s, d, w, a, m, strict, link);
    }
  }

  /** The bytes of the damaged frame. */
  lemma BytesBefore(s: seq<byte>, d: Damage, w: seq<byte>, a: nat, e: seq<byte>, y: nat)
    requires Follows(s, d, w) && a + |e| <= |w| && w[a..a + |e|] == e && a <= y < a + |e| && y < d.at
    ensures y < |s| && s[y] == e[y - a]
  {
    SliceAt(w, a, e, y);
    assert Kept(s, d, w, y);
  }

  lemma BytesBehind(s: seq<byte>, d: Damage, w: seq<byte>, a: nat, e: seq<byte>, y: nat)
    requires Follows(s, d, w) && a + |e| <= |w| && w[a..a + |e|] == e && a <= d.at <= y && y < a + |e|
    requires d.at < y || d.Inserted?
    ensures Moved(d, y) < |s| && s[Moved(d, y)] == e[y - a]
  {
    SliceAt(w, a, e, y);
    assert Kept(s, d, w, y);
  }

  /** A lost byte makes no sync word of bytes neither of which is its first. */
  lemma LostMakesNone(s: seq<byte>, d: Damage, w: seq<byte>, a: nat, z: nat, f: Frame, link: Link)
    requires Follows(s, d, w) && d.Lost? && Touches(d, z) && a + 2 <= z && z + 1 < |s|
    requires FrameIn(w, a, f, true, link) && a + 2 <= d.at < a + |Encode(f, link)|
    ensures !WordAt(s, z)
  {
    BytesBefore(s, d, w, a, Encode(f, link), z);
    TameBytes(f, true, z - a, link);
  }

  /** A damaged frame that contains a sync word made by the damage is decided where the frame would have
      ended: its length field is whole, or else too large. */
  lemma DecidedAtEnd(s: seq<byte>, d: Damage, w: seq<byte>, a: nat, t: nat, f: Frame, z: nat, strict: bool, link: Link)
    requires link.limit < 0x5300 && Follows(s, d, w) && FrameIn(w, a, f, strict, link)
    requires a + 2 <= d.at < a + |Encode(f, link)| <= t <= |s|
    requires Touches(d, z) && a + 2 <= z && WordAt(s, z)
    ensures !Decide(s[a..t], link).Wait?
  {
    var e, q := Encode(f, link), s[a..t];
    EncodedFields(f, link);
    BytesBefore(s, d, w, a, e, a);
    BytesBefore(s, d, w, a, e, a + 1);
    assert q[0] == s[a] && q[1] == s[a + 1] && q[2] == s[a + 2] && q[3] == s[a + 3];
    if d.at >= a + 4 {
      BytesBefore(s, d, w, a, e, a + 2);
      BytesBefore(s, d, w, a, e, a + 3);
      assert LengthField(q) == |f.payload|;
    } else {
      assert LengthField(q) >= 0x5300;
    }
  }

  lemma NestedIsWordless(s: seq<byte>, d: Damage, w: seq<byte>, a: nat, m: nat, z: nat, k: nat,
                         strict: bool, link: Link)
    requires Framed(w, strict, link) && Follows(s, d, w) && link.limit < 0x5300 && a + 2 <= z && k <= m
    requires d.Lost? ==> strict
    requires RejectedAt(Next(link), s, a, m) && RejectedAt(Next(link), s, z, k)
    ensures z + 2 <= k <= |s| && Wordless(s, z + 2, k)
    ensures strict ==> SYNC0 !in s[z + 2..k]
  {
    var f := InnerTouches(s, d, w, a, m, z, k, strict, link);
    if d.Lost? {
      LostMakesNone(s, d, w, a, z, f, link);
    } else {
      if m > a + |Encode(f, link)| {
        DecidedAtEnd(s, d, w, a, m - 1, f, z, strict, link);
      }
      NoWordBehind(s, d, w, a, f, z + 2, k, strict, link);
    }
  }

  lemma NoWordBehind(s: seq<byte>, d: Damage, w: seq<byte>, a: nat, f: Frame, lo: nat, k: nat, strict: bool, link: Link)
    requires Follows(s, d, w) && !d.Lost? && FrameIn(w, a, f, strict, link)
    requires a + 2 <= d.at < a + |Encode(f, link)| && d.at < lo <= k <= |s| && k <= a + |Encode(f, link)|
    ensures Wordless(s, lo, k) && (strict ==> SYNC0 !in s[lo..k])
  {
    forall y | lo <= y < k ensures (strict ==> s[y] != SYNC0) && !WordAt(s, y) {
      NoWordThere(s, d, w, a, f, y - d.at - 1 + Behind(d), strict, link);
    }
  }

  lemma NoWordThere(s: seq<byte>, d: Damage, w: seq<byte>, a: nat, f: Frame, y: nat, strict: bool, link: Link)
    requires Follows(s, d, w) && !d.Lost? && FrameIn(w, a, f, strict, link)
    requires a + 2 <= d.at && Behind(d) <= y < a + |Encode(f, link)|
    ensures Moved(d, y) < |s| && !WordAt(s, Moved(d, y)) && (strict ==> s[Moved(d, y)] != SYNC0)
  {
    BytesBehind(s, d, w, a, Encode(f, link), y);
    TameBytes(f, strict, y - a, link);
    if y + 1 < |w| {
      assert Kept(s, d, w, y + 1);
      NextIsNone(w, a, f, y, strict, link);
    }
  }

  /** No sync word starts inside a tame frame, nor with its last byte. */
  lemma NextIsNone(w: seq<byte>, a: nat, f: Frame, y: nat, strict: bool, link: Link)
    requires FrameIn(w, a, f, strict, link) && a < y < a + |Encode(f, link)| && y + 1 < |w|
    ensures !(w[y] == SYNC0 && w[y + 1] == SYNC1)
  {
    SliceAt(w, a, Encode(f, link), y);
    TameBytes(f, strict, y - a, link);
    if y + 1 < a + |Encode(f, link)| { SliceAt(w, a, Encode(f, link), y + 1); }
  }

  // ---- Main results ------------------------------------------------------------------------

  /** Frames without a second sync word in them, sent back to back, and any one byte changed to anything
      or put in anywhere: the firmware reports the frames and the CRC-error count of the ground decoder.
      With one byte lost it does if not even the first sync byte is in them. */
  lemma OneByteIsRecovered(fs: seq<Frame>, d: Damage, link: Link)
    requires AllTame(fs, d.Lost?, link) && link.limit < 0x5300 && Possible(d, EncodeAll(Enc(link), fs))
    ensures var s := Apply(d, EncodeAll(Enc(link), fs));
            Run(Next(link), IDLE, s).log == Scan(Next(link), s).frames &&
            Run(Next(link), IDLE, s).crcErrors == Scan(Next(link), s).crcErrors
  {
    var w := EncodeAll(Enc(link), fs);
    var s := Apply(d, w);
    SentIsFramed(fs, d.Lost?, link);
    ApplyFollows(d, w);
    forall a: nat, m: nat, z: nat, k: nat ensures ClearAt(Next(link), s, a, m, z, k) {
      if RejectedAt(Next(link), s, a, m) && RejectedAt(Next(link), s, z, k) && a + 2 <= z && k <= m {
        NestedIsWordless(s, d, w, a, m, z, k, d.Lost?, link);
      }
    }
    NextIsFit(link);
    LinkPassesOver(link);
    ClearAgrees(Next(link), s);
  }

  /** Without the first sync byte in them, the two are even in step at every byte looked at. */
  lemma OneByteKeepsStep(fs: seq<Frame>, d: Damage, link: Link)
    requires AllTame(fs, true, link) && link.limit < 0x5300 && Possible(d, EncodeAll(Enc(link), fs))
    ensures UndisturbedRun(Next(link), IDLE, Apply(d, EncodeAll(Enc(link), fs)))
  {
    var w := EncodeAll(Enc(link), fs);
    var s := Apply(d, w);
    SentIsFramed(fs, true, link);
    ApplyFollows(d, w);
    forall a: nat, m: nat, z: nat, k: nat ensures ShallowAt(Next(link), s, a, m, z, k) {
      if RejectedAt(Next(link), s, a, m) && RejectedAt(Next(link), s, z, k) && a + 2 <= z && k <= m {
        NestedIsWordless(s, d, w, a, m, z, k, true, link);
      }
    }
    NextIsFit(link);
    LinkPassesOver(link);
    ShallowIsUndisturbed(Next(link), s);
  }

  /** Where a frame is after the damage, if that does not lie in it. */
  function Whereabouts(d: Damage, p: nat): nat {
    if p < Behind(d) then p else Moved(d, p)
  }

  /** The damage swallows no other frame: each one it does not lie in, with room for the longest frame
      from its start, is reported unless it overlaps a frame that is. */
  lemma OneByteSwallowsNothing(fs: seq<Frame>, d: Damage, f: Frame, p: nat, link: Link)
    returns (starts: seq<nat>, k: nat)
    requires AllTame(fs, d.Lost?, link) && link.limit < 0x5300 && Possible(d, EncodeAll(Enc(link), fs))
    requires f in fs && p + |Encode(f, link)| <= |EncodeAll(Enc(link), fs)|
    requires EncodeAll(Enc(link), fs)[p..p + |Encode(f, link)|] == Encode(f, link)
    requires p + |Encode(f, link)| <= d.at || Behind(d) <= p
    requires Whereabouts(d, p) + OVERHEAD + link.limit <= |Apply(d, EncodeAll(Enc(link), fs))|
    ensures var s, there := Apply(d, EncodeAll(Enc(link), fs)), Whereabouts(d, p);
            |Run(Next(link), IDLE, s).log| == |starts| && k < |starts| && ValidAt(s, starts[k], link) &&
            starts[k] <= there < EndOf(s, starts[k], link) &&
            Run(Next(link), IDLE, s).log[k] == FrameAt(s, starts[k], link)
    ensures starts[k] == Whereabouts(d, p) ==>
              Run(Next(link), IDLE, Apply(d, EncodeAll(Enc(link), fs))).log[k] == f
  {
    OneByteIsRecovered(fs, d, link);
    starts, k := FoundThere(EncodeAll(Enc(link), fs), d, f, p, link);
  }

  lemma FoundThere(w: seq<byte>, d: Damage, f: Frame, p: nat, link: Link) returns (starts: seq<nat>, k: nat)
    requires Possible(d, w) && Sendable(f, link) && p + |Encode(f, link)| <= |w|
    requires w[p..p + |Encode(f, link)|] == Encode(f, link) && (p + |Encode(f, link)| <= d.at || Behind(d) <= p)
    requires Whereabouts(d, p) + OVERHEAD + link.limit <= |Apply(d, w)|
    ensures var s := Apply(d, w);
            |Scan(Next(link), s).frames| == |starts| && k < |starts| && ValidAt(s, starts[k], link) &&
            starts[k] <= Whereabouts(d, p) < EndOf(s, starts[k], link) &&
            Scan(Next(link), s).frames[k] == FrameAt(s, starts[k], link) &&
            (starts[k] == Whereabouts(d, p) ==> Scan(Next(link), s).frames[k] == f)
  {
    ApplyFollows(d, w);
    StillThere(Apply(d, w), d, w, p, Encode(f, link));
    starts, k := NotLost(Apply(d, w), Whereabouts(d, p), f, link);
  }

  lemma StillThere(s: seq<byte>, d: Damage, w: seq<byte>, p: nat, e: seq<byte>)
    requires Follows(s, d, w) && e != [] && p + |e| <= |w| && w[p..p + |e|] == e && (p + |e| <= d.at || Behind(d) <= p)
    ensures var q := Whereabouts(d, p);
            q + |e| <= |s| && s[q..q + |e|] == e
  {
    if p + |e| <= d.at { StaysBefore(s, d, w, p, e); } else { StaysBehind(s, d, w, p, e); }
  }

  lemma NotLost(s: seq<byte>, p: nat, f: Frame, link: Link) returns (starts: seq<nat>, k: nat)
    requires Sendable(f, link) && p + OVERHEAD + link.limit <= |s| && s[p..p + |Encode(f, link)|] == Encode(f, link)
    ensures ValidAt(s, p, link)
    ensures |Scan(Next(link), s).frames| == |starts| && k < |starts| && ValidAt(s, starts[k], link) &&
            starts[k] <= p < EndOf(s, starts[k], link) &&
            Scan(Next(link), s).frames[k] == FrameAt(s, starts[k], link) &&
            FrameAt(s, p, link) == f
  {
    FoundWhole(s, p, f, link);
    starts, k := NoFrameLost(s, p, link);
  }

  lemma FoundWhole(s: seq<byte>, p: nat, f: Frame, link: Link)
    requires Sendable(f, link) && p + |Encode(f, link)| <= |s|
    requires s[p..p + |Encode(f, link)|] == Encode(f, link)
    ensures ValidAt(s, p, link) && FrameAt(s, p, link) == f
  {
    var e := Encode(f, link);
    assert s[p..] == e + s[p + |e|..];
    EncodedIsGood(f, link);
    JudgeExtends(e, s[p + |e|..], link);
  }
}
