/** The firmware's receiver as a function of the bytes it has pending, and how far it agrees
    with the reference scan. Rejected candidates are rescanned one level deep only. */
module Refinement {
  import opened Bytes
  import opened Framing
  import opened Scanner

  /** Bytes of the candidate being assembled, CRC-valid frames so far, CRC errors so far. */
  datatype Core = Core(pending: seq<byte>, log: seq<Frame>, crcErrors: nat)

  const IDLE := Core([], [], 0)

  /** One lone byte that cannot start a sync word is not held on to. */
  function Live(b: seq<byte>): seq<byte> {
    if |b| == 1 && b[0] != SYNC0 then [] else b
  }

  /** One execution of the parser body: either it goes on, or a candidate is rejected and the
      bytes behind its sync word are up for a rescan. */
  datatype Advanced = Kept(core: Core) | Rejected(core: Core, tail: seq<byte>)

  function Advance(next: Decider, c: Core, b: byte): Advanced {
    var q := c.pending + [b];
    match next(q)
    case Wait => Kept(c.(pending := Live(q)))
    case Accept(_, frame) => Kept(c.(pending := [], log := c.log + [frame]))
    case Skip(n, counted) =>
      if n == 1 || |q| < 2 then Kept(c.(pending := Live([b])))
      else Rejected(c.(pending := [], crcErrors := c.crcErrors + if counted then 1 else 0), q[2..])
  }

  /** A rescan: what is rejected in it is dropped. */
  function Replay(next: Decider, c: Core, bytes: seq<byte>): Core
    decreases |bytes|
  {
    if bytes == [] then c else Replay(next, Advance(next, c, bytes[0]).core, bytes[1..])
  }

  /** One received byte. */
  function Step(next: Decider, c: Core, b: byte): Core {
    match Advance(next, c, b)
    case Kept(d) => d
    case Rejected(d, tail) => Replay(next, d, tail)
  }

  function Run(next: Decider, c: Core, bytes: seq<byte>): Core
    decreases |bytes|
  {
    if bytes == [] then c else Run(next, Step(next, c, bytes[0]), bytes[1..])
  }

  // ---- What is needed of the decision function ----------------------------------------

  /** Decisions fall with the byte that settles them. */
  ghost predicate Prompt(next: Decider) {
    forall a, b :: PromptOn(next, a, b)
  }

  ghost predicate PromptOn(next: Decider, a: seq<byte>, b: byte) {
    (|a| == 0 ==> next(a).Wait? && next(a + [b]).Wait?) &&
    (|a| == 1 ==> next(a + [b]).Wait? || next(a + [b]) == Skip(1, false)) &&
    (|a| == 1 && a[0] != SYNC0 ==> next(a + [b]) == Skip(1, false)) &&
    (|a| >= 2 && next(a).Wait? ==>
      next(a + [b]).Wait? || (next(a + [b]).Accept? && next(a + [b]).n == |a| + 1) ||
      (next(a + [b]).Skip? && next(a + [b]).n == 2))
  }

  ghost predicate Fit(next: Decider) {
    Sound(next) && Stable(next) && Prompt(next)
  }

  // ---- Agreement --------------------------------------------------------------------

  /** The receiver stands where a reference scan stands. */
  predicate Agree(c: Core, r: Scanned) {
    c.log == r.frames && c.crcErrors == r.crcErrors && c.pending == Live(r.rest)
  }

  /** The reference scan of u, behind earlier frames and errors. */
  function After(next: Decider, frames: seq<Frame>, errors: nat, u: seq<byte>): Scanned {
    Prepend(frames, errors, Scan(next, u))
  }

  lemma AfterNothing(next: Decider, frames: seq<Frame>, errors: nat)
    requires Fit(next)
    ensures After(next, frames, errors, []) == Scanned(frames, errors, [])
  {
    assert PromptOn(next, [], 0);
    assert frames + [] == frames;
  }

  /** As long as it goes on, the receiver stays with the reference; where it rejects, what is
      left of the reference is the scan of the rejected tail. */
  lemma AdvanceAgrees(next: Decider, c: Core, u: seq<byte>, b: byte, frames: seq<Frame>, errors: nat)
    requires Fit(next) && Agree(c, After(next, frames, errors, u))
    ensures match Advance(next, c, b)
            case Kept(d) => Agree(d, After(next, frames, errors, u + [b]))
            case Rejected(d, tail) =>
              d.pending == [] && After(next, frames, errors, u + [b]) == After(next, d.log, d.crcErrors, tail)
  {
    var r := Scan(next, u);
    ScanInChunks(next, u, [b]);
    RestWaits(next, u);
    PrependAssociative(frames, errors, r.frames, r.crcErrors, Scan(next, r.rest + [b]));
    assert After(next, frames, errors, u + [b]) == After(next, c.log, c.crcErrors, r.rest + [b]);
    PendingAgrees(next, c, r.rest, b);
  }

  lemma PendingAgrees(next: Decider, c: Core, rest: seq<byte>, b: byte)
    requires Fit(next) && next(rest).Wait? && c.pending == Live(rest)
    ensures match Advance(next, c, b)
            case Kept(d) => Agree(d, After(next, c.log, c.crcErrors, rest + [b]))
            case Rejected(d, tail) =>
              d.pending == [] && After(next, c.log, c.crcErrors, rest + [b]) == After(next, d.log, d.crcErrors, tail)
  {
    var q := rest + [b];
    assert PromptOn(next, rest, b) && PromptOn(next, [], b) && SoundOn(next, q) && c.log + [] == c.log;
    assert [] + [b] == [b] && SoundOn(next, [b]);
    assert Scan(next, [b]) == Scanned([], 0, [b]) && Scan(next, []) == Scanned([], 0, []);
    if |rest| == 1 && rest[0] != SYNC0 {
      assert q[1..] == [b];
      assert Scan(next, q) == Scanned([], 0, [b]);
      assert Advance(next, c, b) == Kept(c.(pending := Live([b])));
    } else {
      assert c.pending == rest;
      match next(q) {
        case Wait =>
          assert Scan(next, q) == Scanned([], 0, q);
        case Accept(n, frame) =>
          assert n == |q| && q[n..] == [];
          assert Scan(next, q) == Scanned([frame], 0, []);
        case Skip(n, counted) =>
          if n == 1 {
            assert |rest| == 1 && q[1..] == [b];
            assert Scan(next, q) == Scanned([], 0, [b]);
          } else {
            PrependAssociative(c.log, c.crcErrors, [], if counted then 1 else 0, Scan(next, q[2..]));
          }
      }
    }
  }

  // ---- When the two decoders stay together ---------------------------------------------

  /** Dropping these bytes loses nothing: they decode to nothing and start nothing. */
  predicate Silent(next: Decider, tail: seq<byte>) {
    Scan(next, tail).frames == [] && Scan(next, tail).crcErrors == 0 && Live(Scan(next, tail).rest) == []
  }

  /** Every candidate rejected in the rescan leaves a silent tail. */
  predicate Undisturbed(next: Decider, c: Core, bytes: seq<byte>)
    decreases |bytes|
  {
    bytes != [] ==>
      var a := Advance(next, c, bytes[0]);
      (a.Rejected? ==> Silent(next, a.tail)) && Undisturbed(next, a.core, bytes[1..])
  }

  /** So does every candidate rejected in any rescan of the run. */
  predicate UndisturbedRun(next: Decider, c: Core, bytes: seq<byte>)
    decreases |bytes|
  {
    bytes != [] ==>
      var a := Advance(next, c, bytes[0]);
      (a.Rejected? ==> Undisturbed(next, a.core, a.tail)) &&
      UndisturbedRun(next, Step(next, c, bytes[0]), bytes[1..])
  }

  /** No candidate is rejected in any rescan of the run. */
  predicate NoRejectInReplay(next: Decider, c: Core, bytes: seq<byte>)
    decreases |bytes|
  {
    bytes != [] ==>
      Advance(next, c, bytes[0]).Kept? && NoRejectInReplay(next, Advance(next, c, bytes[0]).core, bytes[1..])
  }

  predicate NoNestedReject(next: Decider, c: Core, bytes: seq<byte>)
    decreases |bytes|
  {
    bytes != [] ==>
      var a := Advance(next, c, bytes[0]);
      (a.Rejected? ==> NoRejectInReplay(next, a.core, a.tail)) &&
      NoNestedReject(next, Step(next, c, bytes[0]), bytes[1..])
  }

  /** The receiver agrees with the reference after every byte of a rescan ... */
  predicate InStep(next: Decider, c: Core, u: seq<byte>, bytes: seq<byte>, frames: seq<Frame>, errors: nat)
    decreases |bytes|
  {
    Agree(c, After(next, frames, errors, u)) &&
    (bytes != [] ==> InStep(next, Advance(next, c, bytes[0]).core, u + [bytes[0]], bytes[1..], frames, errors))
  }

  /** ... and after every byte of the run, rescans included. */
  predicate InStepRun(next: Decider, c: Core, u: seq<byte>, bytes: seq<byte>)
    decreases |bytes|
  {
    Agree(c, Scan(next, u)) &&
    (bytes != [] ==>
      var a := Advance(next, c, bytes[0]);
      (a.Rejected? ==> InStep(next, a.core, [], a.tail, a.core.log, a.core.crcErrors)) &&
      InStepRun(next, Step(next, c, bytes[0]), u + [bytes[0]], bytes[1..]))
  }

  lemma {:induction false} ReplayExact(next: Decider, c: Core, u: seq<byte>, bytes: seq<byte>,
                                       frames: seq<Frame>, errors: nat)
    requires Fit(next) && Agree(c, After(next, frames, errors, u))
    ensures InStep(next, c, u, bytes, frames, errors) <==> Undisturbed(next, c, bytes)
    ensures Undisturbed(next, c, bytes) ==> Agree(Replay(next, c, bytes), After(next, frames, errors, u + bytes))
    decreases |bytes|
  {
    if bytes == [] {
      assert u + bytes == u;
    } else {
      var a, v := Advance(next, c, bytes[0]), u + [bytes[0]];
      AdvanceAgrees(next, c, u, bytes[0], frames, errors);
      assert v + bytes[1..] == u + bytes;
      if a.Rejected? {
        DroppedAgrees(next, a.core, a.tail, After(next, frames, errors, v));
      }
      if Agree(a.core, After(next, frames, errors, v)) {
        ReplayExact(next, a.core, v, bytes[1..], frames, errors);
      }
    }
  }

  /** Dropping a tail keeps agreement exactly if the tail is silent. */
  lemma DroppedAgrees(next: Decider, d: Core, tail: seq<byte>, r: Scanned)
    requires d.pending == [] && r == After(next, d.log, d.crcErrors, tail)
    ensures Agree(d, r) <==> Silent(next, tail)
  {
    var f := Scan(next, tail).frames;
    assert |d.log + f| == |d.log| + |f|;
    if f == [] {
      assert d.log + f == d.log;
    }
  }

  lemma StepExact(next: Decider, c: Core, u: seq<byte>, b: byte)
    requires Fit(next) && Agree(c, Scan(next, u))
    ensures var a := Advance(next, c, b);
            (a.Kept? ==> Agree(a.core, Scan(next, u + [b]))) &&
            (a.Rejected? ==>
              (InStep(next, a.core, [], a.tail, a.core.log, a.core.crcErrors) <==> Undisturbed(next, a.core, a.tail)) &&
              (Undisturbed(next, a.core, a.tail) ==> Agree(Step(next, c, b), Scan(next, u + [b]))))
  {
    var a, v := Advance(next, c, b), u + [b];
    BehindNothing(next, u);
    BehindNothing(next, v);
    AdvanceAgrees(next, c, u, b, [], 0);
    if a.Rejected? {
      AfterNothing(next, a.core.log, a.core.crcErrors);
      ReplayExact(next, a.core, [], a.tail, a.core.log, a.core.crcErrors);
      assert [] + a.tail == a.tail;
    }
  }

  lemma BehindNothing(next: Decider, u: seq<byte>)
    ensures After(next, [], 0, u) == Scan(next, u)
  {
    assert [] + Scan(next, u).frames == Scan(next, u).frames;
  }

  /** The exact condition: receiver and reference are in step at every byte they look at if and
      only if every candidate rejected during a rescan leaves a silent tail. */
  lemma {:induction false} RunExact(next: Decider, c: Core, u: seq<byte>, bytes: seq<byte>)
    requires Fit(next) && Agree(c, Scan(next, u))
    ensures InStepRun(next, c, u, bytes) <==> UndisturbedRun(next, c, bytes)
    ensures UndisturbedRun(next, c, bytes) ==> Agree(Run(next, c, bytes), Scan(next, u + bytes))
    decreases |bytes|
  {
    if bytes == [] {
      assert u + bytes == u;
    } else {
      var v := u + [bytes[0]];
      StepExact(next, c, u, bytes[0]);
      assert v + bytes[1..] == u + bytes;
      if Agree(Step(next, c, bytes[0]), Scan(next, v)) {
        RunExact(next, Step(next, c, bytes[0]), v, bytes[1..]);
      }
    }
  }

  lemma {:induction false} NoRejectIsUndisturbed(next: Decider, c: Core, bytes: seq<byte>)
    requires NoRejectInReplay(next, c, bytes)
    ensures Undisturbed(next, c, bytes)
    decreases |bytes|
  {
    if bytes != [] {
      NoRejectIsUndisturbed(next, Advance(next, c, bytes[0]).core, bytes[1..]);
    }
  }

  lemma {:induction false} NoNestedIsUndisturbed(next: Decider, c: Core, bytes: seq<byte>)
    requires NoNestedReject(next, c, bytes)
    ensures UndisturbedRun(next, c, bytes)
    decreases |bytes|
  {
    if bytes != [] {
      var a := Advance(next, c, bytes[0]);
      if a.Rejected? {
        NoRejectIsUndisturbed(next, a.core, a.tail);
      }
      NoNestedIsUndisturbed(next, Step(next, c, bytes[0]), bytes[1..]);
    }
  }

  /** On every stream in which no candidate is rejected during a rescan, the receiver yields
      exactly the frames and the CRC-error count of the reference decoder. */
  lemma ReceiverMatchesReference(next: Decider, stream: seq<byte>)
    requires Fit(next) && NoNestedReject(next, IDLE, stream)
    ensures Run(next, IDLE, stream).log == Scan(next, stream).frames
    ensures Run(next, IDLE, stream).crcErrors == Scan(next, stream).crcErrors
  {
    NoNestedIsUndisturbed(next, IDLE, stream);
    assert PromptOn(next, [], 0);
    assert Scan(next, []) == Scanned([], 0, []);
    RunExact(next, IDLE, [], stream);
    assert [] + stream == stream;
  }

  // ---- What holds on every stream ------------------------------------------------------

  lemma {:induction false} RunConcat(next: Decider, c: Core, a: seq<byte>, b: seq<byte>)
    ensures Run(next, c, a + b) == Run(next, Run(next, c, a), b)
    decreases |a|
  {
    if a == [] {
      assert a + b == b;
    } else {
      assert (a + b)[1..] == a[1..] + b;
      RunConcat(next, Step(next, c, a[0]), a[1..], b);
    }
  }

  lemma {:induction false} ReplayConcat(next: Decider, c: Core, a: seq<byte>, b: seq<byte>)
    ensures Replay(next, c, a + b) == Replay(next, Replay(next, c, a), b)
    decreases |a|
  {
    if a == [] {
      assert a + b == b;
    } else {
      assert (a + b)[1..] == a[1..] + b;
      ReplayConcat(next, Advance(next, c, a[0]).core, a[1..], b);
    }
  }

  /** f lies in s, whole and acceptable. */
  ghost predicate Occurs(next: Decider, s: seq<byte>, f: Frame) {
    exists p: nat :: AcceptedAt(next, s, p) && next(s[p..]).frame == f
  }

  ghost predicate AllOccur(next: Decider, s: seq<byte>, log: seq<Frame>) {
    forall f :: f in log ==> Occurs(next, s, f)
  }

  predicate IsSuffix(p: seq<byte>, w: seq<byte>) {
    |p| <= |w| && w[|w| - |p|..] == p
  }

  lemma OccursInMore(next: Decider, a: seq<byte>, s: seq<byte>, b: seq<byte>, f: Frame)
    requires Stable(next) && Occurs(next, s, f)
    ensures Occurs(next, a + s + b, f)
  {
    var p: nat :| AcceptedAt(next, s, p) && next(s[p..]).frame == f;
    assert (a + s + b)[|a| + p..] == s[p..] + b && StableOn(next, s[p..], b);
    assert AcceptedAt(next, a + s + b, |a| + p);
  }

  lemma AllOccurInMore(next: Decider, a: seq<byte>, s: seq<byte>, b: seq<byte>, t: seq<byte>, log: seq<Frame>)
    requires Stable(next) && AllOccur(next, s, log) && t == a + s + b
    ensures AllOccur(next, t, log)
  {
    forall f | f in log ensures Occurs(next, t, f) {
      OccursInMore(next, a, s, b, f);
    }
  }

  lemma AdvanceOccurs(next: Decider, c: Core, w: seq<byte>, b: byte)
    requires Fit(next) && IsSuffix(c.pending, w) && AllOccur(next, w, c.log)
    ensures AllOccur(next, w + [b], Advance(next, c, b).core.log)
    ensures IsSuffix(Advance(next, c, b).core.pending, w + [b])
    ensures Advance(next, c, b).Rejected? ==> IsSuffix(Advance(next, c, b).tail, w + [b])
  {
    var q, v := c.pending + [b], w + [b];
    AllOccurInMore(next, [], w, [b], v, c.log);
    assert v[|v| - |q|..] == q && SoundOn(next, q);
    if next(q).Accept? {
      assert AcceptedAt(next, v, |v| - |q|);
    } else if next(q).Skip? && next(q).n != 1 && |q| >= 2 {
      SuffixTail(q, v);
    }
  }

  lemma SuffixTail(q: seq<byte>, v: seq<byte>)
    requires IsSuffix(q, v) && |q| >= 2
    ensures IsSuffix(q[2..], v)
  {
    assert v[|v| - |q[2..]|..] == q[2..];
  }

  lemma {:induction false} ReplayOccurs(next: Decider, c: Core, w: seq<byte>, bytes: seq<byte>)
    requires Fit(next) && IsSuffix(c.pending, w) && AllOccur(next, w, c.log)
    ensures AllOccur(next, w + bytes, Replay(next, c, bytes).log)
    ensures IsSuffix(Replay(next, c, bytes).pending, w + bytes)
    decreases |bytes|
  {
    if bytes == [] {
      assert w + bytes == w;
    } else {
      AdvanceOccurs(next, c, w, bytes[0]);
      assert w + [bytes[0]] + bytes[1..] == w + bytes;
      ReplayOccurs(next, Advance(next, c, bytes[0]).core, w + [bytes[0]], bytes[1..]);
    }
  }

  lemma {:induction false} StepOccurs(next: Decider, c: Core, w: seq<byte>, b: byte)
    requires Fit(next) && IsSuffix(c.pending, w) && AllOccur(next, w, c.log)
    ensures AllOccur(next, w + [b], Step(next, c, b).log)
    ensures IsSuffix(Step(next, c, b).pending, w + [b])
  {
    var a, v := Advance(next, c, b), w + [b];
    AdvanceOccurs(next, c, w, b);
    if a.Rejected? {
      var silent := a.core.(log := []);
      var before := v[..|v| - |a.tail|];
      assert v == before + a.tail;
      ReplayOccurs(next, silent, before, a.tail);
      ReplayLog(next, a.core, [], a.core.log, a.tail);
    }
  }

  /** A rescan only adds to the log. */
  lemma {:induction false} ReplayLog(next: Decider, c: Core, log: seq<Frame>, base: seq<Frame>, bytes: seq<byte>)
    requires c.log == base + log
    ensures Replay(next, c, bytes).log == base + Replay(next, c.(log := log), bytes).log
    ensures Replay(next, c, bytes).pending == Replay(next, c.(log := log), bytes).pending
    decreases |bytes|
  {
    if bytes != [] {
      var x, y := Advance(next, c, bytes[0]), Advance(next, c.(log := log), bytes[0]);
      assert x.core.log == base + y.core.log;
      ReplayLog(next, x.core, y.core.log, base, bytes[1..]);
    }
  }

  /** Whatever the noise and however often candidates are dropped, every frame the receiver
      reports lies whole and valid in the stream. */
  lemma {:induction false} RunOccurs(next: Decider, c: Core, w: seq<byte>, bytes: seq<byte>)
    requires Fit(next) && IsSuffix(c.pending, w) && AllOccur(next, w, c.log)
    ensures AllOccur(next, w + bytes, Run(next, c, bytes).log)
    ensures IsSuffix(Run(next, c, bytes).pending, w + bytes)
    decreases |bytes|
  {
    if bytes == [] {
      assert w + bytes == w;
    } else {
      StepOccurs(next, c, w, bytes[0]);
      assert w + [bytes[0]] + bytes[1..] == w + bytes;
      RunOccurs(next, Step(next, c, bytes[0]), w + [bytes[0]], bytes[1..]);
    }
  }

  /** The beginning of a candidate that stays undecided just piles up. */
  lemma {:induction false} UndecidedPilesUp(next: Decider, c: Core, q: seq<byte>)
    requires c.pending == [] && (q != [] ==> q[0] == SYNC0)
    requires forall k :: 0 < k <= |q| ==> next(q[..k]).Wait?
    ensures Run(next, c, q) == c.(pending := q) && Replay(next, c, q) == c.(pending := q)
    decreases |q|
  {
    if q != [] {
      var n := |q| - 1;
      var p, b := q[..n], q[n];
      forall k | 0 < k <= n ensures next(p[..k]).Wait? {
        assert p[..k] == q[..k];
      }
      UndecidedPilesUp(next, c, p);
      assert q == p + [b] && q[..|q|] == q;
      RunConcat(next, c, p, [b]);
      ReplayConcat(next, c, p, [b]);
      assert Advance(next, c.(pending := p), b) == Kept(c.(pending := q));
    }
  }

  /** From an idle receiver, encoded frames are reported complete and in order. */
  lemma {:induction false} RunEncoded(next: Decider, enc: Encoder, c: Core, fs: seq<Frame>)
    requires c.pending == [] && DecodesAll(next, enc, fs)
    requires forall f :: f in fs ==> enc(f) != [] && enc(f)[0] == SYNC0
    ensures Run(next, c, EncodeAll(enc, fs)) == c.(log := c.log + fs)
    decreases |fs|
  {
    if fs == [] {
      assert c.log + fs == c.log;
    } else {
      var f, e := fs[0], enc(fs[0]);
      var n := |e| - 1;
      assert f in fs && Decodes(next, e, f);
      forall k | 0 < k <= n ensures next(e[..n][..k]).Wait? {
        assert e[..n][..k] == e[..k];
      }
      UndecidedPilesUp(next, c, e[..n]);
      assert e == e[..n] + [e[n]];
      RunConcat(next, c, e[..n], [e[n]]);
      RunConcat(next, c, e, EncodeAll(enc, fs[1..]));
      RunEncoded(next, enc, c.(log := c.log + [f]), fs[1..]);
      assert c.log + [f] + fs[1..] == c.log + fs;
    }
  }
}
