/** When a rescan that goes one level deep is enough: where no rejected candidate hides the start of
    another frame from it. Everything here holds for every decision function that fits the receiver
    and passes over bytes without a sync word. */
module Recovery {
  import opened Bytes
  import opened Framing
  import opened Scanner
  import opened Refinement

  predicate WordAt(s: seq<byte>, j: nat) {
    j + 1 < |s| && s[j] == SYNC0 && s[j + 1] == SYNC1
  }

  /** No sync word starts in s[lo..hi]. */
  predicate Wordless(s: seq<byte>, lo: nat, hi: nat) {
    forall j :: lo <= j < hi ==> !WordAt(s, j)
  }

  /** Bytes without a sync word are passed over, all but the last. */
  ghost predicate PassesOver(next: Decider) {
    (forall t :: PassedIfWordless(next, t)) &&
    (forall b: byte :: b != SYNC1 ==> Lone(next, b))
  }

  predicate PassedIfWordless(next: Decider, t: seq<byte>) {
    Wordless(t, 0, |t|) ==> PassedOver(next, t)
  }

  predicate PassedOver(next: Decider, t: seq<byte>) {
    Scan(next, t) == Scanned([], 0, if t == [] then [] else t[|t| - 1..])
  }

  predicate Lone(next: Decider, b: byte) {
    next([SYNC0, b]) == Skip(1, false) && next([b]).Wait?
  }

  // ---- Conditions on the stream ------------------------------------------------------------

  /** The candidate s[a..m] is turned down, and not before its last byte. */
  predicate RejectedAt(next: Decider, s: seq<byte>, a: nat, m: nat) {
    a + 3 <= m <= |s| && next(s[a..m - 1]).Wait? && next(s[a..m]).Skip? && next(s[a..m]).n == 2
  }

  /** Where one rejected candidate lies inside another, no other sync word starts in the inner one. */
  ghost predicate Clear(next: Decider, s: seq<byte>) {
    forall a: nat, m: nat, z: nat, k: nat :: ClearAt(next, s, a, m, z, k)
  }

  predicate ClearAt(next: Decider, s: seq<byte>, a: nat, m: nat, z: nat, k: nat) {
    RejectedAt(next, s, a, m) && RejectedAt(next, s, z, k) && a + 2 <= z && k <= m ==> Wordless(s, z + 2, k)
  }

  /** There is not even a first sync byte. */
  ghost predicate Shallow(next: Decider, s: seq<byte>) {
    forall a: nat, m: nat, z: nat, k: nat :: ShallowAt(next, s, a, m, z, k)
  }

  predicate ShallowAt(next: Decider, s: seq<byte>, a: nat, m: nat, z: nat, k: nat) {
    RejectedAt(next, s, a, m) && RejectedAt(next, s, z, k) && a + 2 <= z && k <= m ==> SYNC0 !in s[z + 2..k]
  }

  // ---- Where candidates lie ----------------------------------------------------------------

  /** The pending bytes are the last ones received, and undecided. */
  predicate Holding(next: Decider, c: Core, u: seq<byte>) {
    IsSuffix(c.pending, u) && next(c.pending).Wait?
  }

  lemma AdvanceHolds(next: Decider, c: Core, u: seq<byte>, b: byte)
    requires Fit(next) && Holding(next, c, u)
    ensures Holding(next, Advance(next, c, b).core, u + [b])
    ensures Advance(next, c, b).Rejected? ==>
              IsSuffix(c.pending + [b], u + [b]) && |c.pending| >= 2 &&
              next(c.pending + [b]).Skip? && next(c.pending + [b]).n == 2 &&
              Advance(next, c, b).tail == (c.pending + [b])[2..]
  {
    var q, v := c.pending + [b], u + [b];
    assert v[|v| - |q|..] == q && v[|v| - 1..] == [b];
    assert PromptOn(next, c.pending, b) && PromptOn(next, [], b) && [] + [b] == [b];
    assert SoundOn(next, q);
  }

  lemma {:induction false} ReplayHolds(next: Decider, c: Core, u: seq<byte>, bytes: seq<byte>)
    requires Fit(next) && Holding(next, c, u)
    ensures Holding(next, Replay(next, c, bytes), u + bytes)
    decreases |bytes|
  {
    if bytes == [] {
      assert u + bytes == u;
    } else {
      AdvanceHolds(next, c, u, bytes[0]);
      assert u + [bytes[0]] + bytes[1..] == u + bytes;
      ReplayHolds(next, Advance(next, c, bytes[0]).core, u + [bytes[0]], bytes[1..]);
    }
  }

  lemma SuffixOfSuffix(p: seq<byte>, u: seq<byte>, w: seq<byte>)
    requires IsSuffix(p, u) && IsSuffix(u, w)
    ensures IsSuffix(p, w)
  {
    assert w[|w| - |p|..] == w[|w| - |u|..][|u| - |p|..];
  }

  lemma StepHolds(next: Decider, c: Core, u: seq<byte>, b: byte)
    requires Fit(next) && Holding(next, c, u)
    ensures Holding(next, Step(next, c, b), u + [b])
  {
    AdvanceHolds(next, c, u, b);
    var a, v := Advance(next, c, b), u + [b];
    if a.Rejected? {
      assert PromptOn(next, [], b);
      ReplayHolds(next, a.core, [], a.tail);
      assert [] + a.tail == a.tail;
      assert v[|v| - |a.tail|..] == a.tail;
      SuffixOfSuffix(Step(next, c, b).pending, a.tail, v);
    }
  }

  /** Where a rejected candidate lies in the stream. */
  lemma RejectedHere(next: Decider, s: seq<byte>, e: nat, c: Core, u: seq<byte>, b: byte) returns (z: nat)
    requires Fit(next) && Holding(next, c, u) && e <= |s| && IsSuffix(u + [b], s[..e])
    requires Advance(next, c, b).Rejected?
    ensures |c.pending| >= 2 && z + |c.pending| + 1 == e <= z + |u| + 1 && RejectedAt(next, s, z, e)
    ensures Advance(next, c, b).tail == s[z + 2..e]
  {
    AdvanceHolds(next, c, u, b);
    var q := c.pending + [b];
    z := e - |q|;
    SuffixOfSuffix(q, u + [b], s[..e]);
    assert s[z..e] == s[..e][e - |q|..] == q;
    assert s[z..e - 1] == q[..|q| - 1] == c.pending;
  }

  /** Behind u in a rescan of s[a + 2..m]. */
  lemma BehindInRescan(s: seq<byte>, a: nat, m: nat, u: seq<byte>, bytes: seq<byte>)
    requires a + 2 <= m <= |s| && s[a + 2..m] == u + bytes && bytes != []
    ensures a + 2 + |u| < m && bytes[0] == s[a + 2 + |u|]
    ensures IsSuffix(u + [bytes[0]], s[..a + 3 + |u|]) && u + [bytes[0]] + bytes[1..] == u + bytes
  {
    var e, t := a + 3 + |u|, s[a + 2..m];
    assert t[|u|] == bytes[0];
    assert t[..|u| + 1] == u + [bytes[0]];
    assert s[..e][a + 2..] == t[..|u| + 1];
  }

  lemma Splits(s: seq<byte>, u: seq<byte>, bytes: seq<byte>)
    requires s == u + bytes && bytes != []
    ensures u + [bytes[0]] == s[..|u| + 1] && u + [bytes[0]] + bytes[1..] == s
  {
  }

  // ---- In step throughout ------------------------------------------------------------------

  lemma {:induction false} RescanIsUndisturbed(next: Decider, s: seq<byte>, a: nat, m: nat,
                                               c: Core, u: seq<byte>, bytes: seq<byte>)
    requires Fit(next) && PassesOver(next) && Shallow(next, s) && RejectedAt(next, s, a, m)
    requires s[a + 2..m] == u + bytes && Holding(next, c, u)
    ensures Undisturbed(next, c, bytes)
    decreases |bytes|
  {
    if bytes != [] {
      var b := bytes[0];
      BehindInRescan(s, a, m, u, bytes);
      AdvanceHolds(next, c, u, b);
      if Advance(next, c, b).Rejected? {
        InnerHasNoSync(next, s, a, m, c, u, b);
        NoSyncIsSilent(next, Advance(next, c, b).tail);
      }
      RescanIsUndisturbed(next, s, a, m, Advance(next, c, b).core, u + [b], bytes[1..]);
    }
  }

  lemma InnerHasNoSync(next: Decider, s: seq<byte>, a: nat, m: nat, c: Core, u: seq<byte>, b: byte)
    requires Fit(next) && Shallow(next, s) && RejectedAt(next, s, a, m) && Holding(next, c, u)
    requires a + 3 + |u| <= m && IsSuffix(u + [b], s[..a + 3 + |u|]) && Advance(next, c, b).Rejected?
    ensures SYNC0 !in Advance(next, c, b).tail
  {
    var e := a + 3 + |u|;
    var z := RejectedHere(next, s, e, c, u, b);
    ShallowThere(next, s, a, m, z, e);
  }

  lemma ShallowThere(next: Decider, s: seq<byte>, a: nat, m: nat, z: nat, k: nat)
    requires Shallow(next, s) && RejectedAt(next, s, a, m) && RejectedAt(next, s, z, k) && a + 2 <= z && k <= m
    ensures z + 2 <= k <= |s| && SYNC0 !in s[z + 2..k]
  {
    assert ShallowAt(next, s, a, m, z, k);
  }

  lemma WholeRescanIsUndisturbed(next: Decider, s: seq<byte>, a: nat, m: nat, c: Core)
    requires Fit(next) && PassesOver(next) && Shallow(next, s) && RejectedAt(next, s, a, m) && c.pending == []
    ensures Undisturbed(next, c, s[a + 2..m])
  {
    var tail := s[a + 2..m];
    IdleHolds(next, c);
    assert [] + tail == tail;
    RescanIsUndisturbed(next, s, a, m, c, [], tail);
  }

  lemma IdleHolds(next: Decider, c: Core)
    requires Fit(next) && c.pending == []
    ensures Holding(next, c, [])
  {
    assert PromptOn(next, [], 0);
  }

  lemma NoSyncIsSilent(next: Decider, t: seq<byte>)
    requires PassesOver(next) && SYNC0 !in t
    ensures Silent(next, t)
  {
    assert PassedIfWordless(next, t) && Wordless(t, 0, |t|);
  }

  lemma {:induction false} RunIsUndisturbed(next: Decider, s: seq<byte>, c: Core, u: seq<byte>, bytes: seq<byte>)
    requires Fit(next) && PassesOver(next) && Shallow(next, s) && s == u + bytes && Holding(next, c, u)
    ensures UndisturbedRun(next, c, bytes)
    decreases |bytes|
  {
    if bytes != [] {
      var b := bytes[0];
      var v, a := u + [b], Advance(next, c, b);
      Splits(s, u, bytes);
      if a.Rejected? {
        var z := RejectedHere(next, s, |v|, c, u, b);
        WholeRescanIsUndisturbed(next, s, z, |v|, a.core);
      }
      StepHolds(next, c, u, b);
      RunIsUndisturbed(next, s, Step(next, c, b), v, bytes[1..]);
    }
  }

  /** On every shallow stream the receiver is in step with the reference at every byte looked at. */
  lemma ShallowIsUndisturbed(next: Decider, s: seq<byte>)
    requires Fit(next) && PassesOver(next) && Shallow(next, s)
    ensures UndisturbedRun(next, IDLE, s)
  {
    IdleHolds(next, IDLE);
    assert [] + s == s;
    RunIsUndisturbed(next, s, IDLE, [], s);
  }

  // ---- Out of step for one byte at most ----------------------------------------------------

  /** What a rescan drops contains no sync word, nor the beginning of one: `behind` comes after it. */
  predicate Mild(next: Decider, c: Core, bytes: seq<byte>, behind: seq<byte>)
    decreases |bytes|
  {
    bytes != [] ==>
      var a := Advance(next, c, bytes[0]);
      (a.Rejected? ==> Wordless(a.tail + (bytes[1..] + behind), 0, |a.tail|)) &&
      Mild(next, a.core, bytes[1..], behind)
  }

  predicate MildRun(next: Decider, c: Core, bytes: seq<byte>)
    decreases |bytes|
  {
    bytes != [] ==>
      var a := Advance(next, c, bytes[0]);
      (a.Rejected? ==> Mild(next, a.core, a.tail, bytes[1..])) &&
      MildRun(next, Step(next, c, bytes[0]), bytes[1..])
  }

  /** In step with the reference, or short of one sync byte that the next byte makes worthless. */
  predicate Near(c: Core, r: Scanned, behind: seq<byte>) {
    c.log == r.frames && c.crcErrors == r.crcErrors &&
    (c.pending == Live(r.rest) || Short(c, r, behind))
  }

  predicate Short(c: Core, r: Scanned, behind: seq<byte>) {
    c.pending == [] && r.rest == [SYNC0] && (behind != [] ==> behind[0] != SYNC1)
  }

  /** A lone sync byte makes no difference before a byte that does not go with it. */
  lemma LoneIsForgotten(next: Decider, c: Core, b: byte)
    requires PassesOver(next) && c.pending == [] && b != SYNC1
    ensures Advance(next, c, b) == Advance(next, c.(pending := [SYNC0]), b)
  {
    LoneByteIsForgotten(next, c, b);
  }

  lemma LoneByteIsForgotten(next: Decider, c: Core, b: byte)
    requires Lone(next, b) && c.pending == []
    ensures Advance(next, c, b) == Advance(next, c.(pending := [SYNC0]), b)
  {
    assert [SYNC0] + [b] == [SYNC0, b] && [] + [b] == [b];
  }

  lemma AdvanceNear(next: Decider, c: Core, u: seq<byte>, b: byte, behind: seq<byte>, frames: seq<Frame>, errors: nat)
    requires Fit(next) && PassesOver(next) && Near(c, After(next, frames, errors, u), [b] + behind)
    ensures var d := Advance(next, c, b);
            d.Kept? ==> Agree(d.core, After(next, frames, errors, u + [b]))
    ensures var d := Advance(next, c, b);
            d.Rejected? ==>
              d.core.pending == [] &&
              After(next, frames, errors, u + [b]) == After(next, d.core.log, d.core.crcErrors, d.tail)
  {
    var r := After(next, frames, errors, u);
    AdvanceAgrees(next, c.(pending := Live(r.rest)), u, b, frames, errors);
    if c.pending != Live(r.rest) {
      LoneIsForgotten(next, c, b);
    }
  }

  /** Dropping a tail without a sync word. */
  lemma DroppedNear(next: Decider, d: Core, tail: seq<byte>, behind: seq<byte>, r: Scanned)
    requires PassesOver(next) && Wordless(tail + behind, 0, |tail|)
    requires d.pending == [] && r == After(next, d.log, d.crcErrors, tail)
    ensures Near(d, r, behind)
  {
    WordlessPart(tail, behind);
    assert PassedIfWordless(next, tail);
    PassedNear(next, d, tail, behind, r);
  }

  lemma WordlessPart(tail: seq<byte>, behind: seq<byte>)
    requires Wordless(tail + behind, 0, |tail|)
    ensures Wordless(tail, 0, |tail|)
    ensures tail != [] && behind != [] && tail[|tail| - 1] == SYNC0 ==> behind[0] != SYNC1
  {
    forall j | 0 <= j < |tail| ensures !WordAt(tail, j) {
      assert !WordAt(tail + behind, j);
    }
    if tail != [] {
      assert !WordAt(tail + behind, |tail| - 1);
    }
  }

  lemma PassedNear(next: Decider, d: Core, tail: seq<byte>, behind: seq<byte>, r: Scanned)
    requires PassedOver(next, tail) && d.pending == [] && r == After(next, d.log, d.crcErrors, tail)
    requires tail != [] && behind != [] && tail[|tail| - 1] == SYNC0 ==> behind[0] != SYNC1
    ensures Near(d, r, behind)
  {
    assert d.log + [] == d.log;
    if tail != [] { assert tail[|tail| - 1..] == [tail[|tail| - 1]]; }
  }

  lemma Peel(u: seq<byte>, bytes: seq<byte>, behind: seq<byte>)
    requires bytes != []
    ensures u + bytes == u + [bytes[0]] + bytes[1..]
    ensures bytes + behind == [bytes[0]] + (bytes[1..] + behind)
  {
  }

  lemma {:induction false} RescanNear(next: Decider, c: Core, u: seq<byte>, bytes: seq<byte>, w: seq<byte>,
                                      behind: seq<byte>, frames: seq<Frame>, errors: nat)
    requires Fit(next) && PassesOver(next) && Mild(next, c, bytes, behind) && w == u + bytes
    requires Near(c, After(next, frames, errors, u), bytes + behind)
    ensures Near(Replay(next, c, bytes), After(next, frames, errors, w), behind)
    decreases |bytes|
  {
    if bytes == [] {
      assert w == u && bytes + behind == behind;
    } else {
      Peel(u, bytes, behind);
      RescanStepNear(next, c, u, bytes[0], bytes[1..] + behind, frames, errors);
      RescanNear(next, Advance(next, c, bytes[0]).core, u + [bytes[0]], bytes[1..], w, behind, frames, errors);
    }
  }

  lemma RescanStepNear(next: Decider, c: Core, u: seq<byte>, b: byte, rest: seq<byte>, frames: seq<Frame>, errors: nat)
    requires Fit(next) && PassesOver(next) && Near(c, After(next, frames, errors, u), [b] + rest)
    requires Advance(next, c, b).Rejected? ==>
               Wordless(Advance(next, c, b).tail + rest, 0, |Advance(next, c, b).tail|)
    ensures Near(Advance(next, c, b).core, After(next, frames, errors, u + [b]), rest)
  {
    AdvanceNear(next, c, u, b, rest, frames, errors);
    var d := Advance(next, c, b);
    if d.Rejected? {
      DroppedNear(next, d.core, d.tail, rest, After(next, frames, errors, u + [b]));
    }
  }

  lemma StepNear(next: Decider, c: Core, u: seq<byte>, b: byte, behind: seq<byte>)
    requires Fit(next) && PassesOver(next) && Near(c, Scan(next, u), [b] + behind)
    requires Advance(next, c, b).Rejected? ==> Mild(next, Advance(next, c, b).core, Advance(next, c, b).tail, behind)
    ensures Near(Step(next, c, b), Scan(next, u + [b]), behind)
  {
    BehindNothing(next, u);
    BehindNothing(next, u + [b]);
    AdvanceNear(next, c, u, b, behind, [], 0);
    var a := Advance(next, c, b);
    if a.Rejected? {
      AfterNothing(next, a.core.log, a.core.crcErrors);
      assert [] + a.tail == a.tail;
      RescanNear(next, a.core, [], a.tail, a.tail, behind, a.core.log, a.core.crcErrors);
    }
  }

  lemma {:induction false} RunNear(next: Decider, c: Core, u: seq<byte>, bytes: seq<byte>, w: seq<byte>)
    requires Fit(next) && PassesOver(next) && MildRun(next, c, bytes) && w == u + bytes
    requires Near(c, Scan(next, u), bytes)
    ensures Near(Run(next, c, bytes), Scan(next, w), [])
    decreases |bytes|
  {
    if bytes == [] {
      assert w == u;
    } else {
      Peel(u, bytes, []);
      assert bytes + [] == bytes && bytes[1..] + [] == bytes[1..];
      StepNear(next, c, u, bytes[0], bytes[1..]);
      RunNear(next, Step(next, c, bytes[0]), u + [bytes[0]], bytes[1..], w);
    }
  }

  // ---- Clear streams are mild --------------------------------------------------------------

  lemma WordlessBehind(s: seq<byte>, lo: nat, e: nat)
    requires lo <= e <= |s| && Wordless(s, lo, e)
    ensures Wordless(s[lo..e] + s[e..], 0, e - lo)
  {
    forall j | 0 <= j < e - lo ensures !WordAt(s[lo..e] + s[e..], j) {
      assert !WordAt(s, lo + j);
    }
  }

  lemma RestOfRescan(s: seq<byte>, a: nat, m: nat, u: seq<byte>, bytes: seq<byte>)
    requires a + 2 <= m <= |s| && s[a + 2..m] == u + bytes
    ensures bytes + s[m..] == s[a + 2 + |u|..]
  {
    assert bytes == s[a + 2..m][|u|..] == s[a + 2 + |u|..m];
  }

  lemma DropIsWordless(next: Decider, s: seq<byte>, a: nat, m: nat, c: Core, u: seq<byte>, b: byte, rest: seq<byte>)
    requires Fit(next) && Clear(next, s) && RejectedAt(next, s, a, m) && Holding(next, c, u)
    requires a + 3 + |u| <= m && IsSuffix(u + [b], s[..a + 3 + |u|]) && rest == s[a + 3 + |u|..]
    ensures var d := Advance(next, c, b);
            d.Rejected? ==> Wordless(d.tail + rest, 0, |d.tail|)
  {
    if Advance(next, c, b).Rejected? {
      var z := RejectedHere(next, s, a + 3 + |u|, c, u, b);
      assert ClearAt(next, s, a, m, z, a + 3 + |u|);
      WordlessBehind(s, z + 2, a + 3 + |u|);
    }
  }

  lemma {:induction false} RescanIsMild(next: Decider, s: seq<byte>, a: nat, m: nat,
                                        c: Core, u: seq<byte>, bytes: seq<byte>)
    requires Fit(next) && Clear(next, s) && RejectedAt(next, s, a, m)
    requires s[a + 2..m] == u + bytes && Holding(next, c, u)
    ensures Mild(next, c, bytes, s[m..])
    decreases |bytes|
  {
    if bytes != [] {
      var b := bytes[0];
      BehindInRescan(s, a, m, u, bytes);
      AdvanceHolds(next, c, u, b);
      RestOfRescan(s, a, m, u + [b], bytes[1..]);
      DropIsWordless(next, s, a, m, c, u, b, bytes[1..] + s[m..]);
      RescanIsMild(next, s, a, m, Advance(next, c, b).core, u + [b], bytes[1..]);
      MildOnward(next, c, bytes, s[m..]);
    }
  }

  lemma MildOnward(next: Decider, c: Core, bytes: seq<byte>, behind: seq<byte>)
    requires bytes != []
    requires var a := Advance(next, c, bytes[0]);
             (a.Rejected? ==> Wordless(a.tail + (bytes[1..] + behind), 0, |a.tail|)) &&
             Mild(next, a.core, bytes[1..], behind)
    ensures Mild(next, c, bytes, behind)
  {
  }

  lemma WholeRescanIsMild(next: Decider, s: seq<byte>, a: nat, m: nat, c: Core)
    requires Fit(next) && Clear(next, s) && RejectedAt(next, s, a, m) && c.pending == []
    ensures Mild(next, c, s[a + 2..m], s[m..])
  {
    var tail := s[a + 2..m];
    IdleHolds(next, c);
    assert [] + tail == tail;
    RescanIsMild(next, s, a, m, c, [], tail);
  }

  lemma {:induction false} ClearIsMild(next: Decider, s: seq<byte>, c: Core, u: seq<byte>, bytes: seq<byte>)
    requires Fit(next) && Clear(next, s) && s == u + bytes && Holding(next, c, u)
    ensures MildRun(next, c, bytes)
    decreases |bytes|
  {
    if bytes != [] {
      var b := bytes[0];
      var v, a := u + [b], Advance(next, c, b);
      Splits(s, u, bytes);
      if a.Rejected? {
        var z := RejectedHere(next, s, |v|, c, u, b);
        WholeRescanIsMild(next, s, z, |v|, a.core);
        assert s[|v|..] == bytes[1..];
      }
      StepHolds(next, c, u, b);
      ClearIsMild(next, s, Step(next, c, b), v, bytes[1..]);
    }
  }

  /** On every clear stream the receiver reports what the reference does. */
  lemma ClearAgrees(next: Decider, s: seq<byte>)
    requires Fit(next) && PassesOver(next) && Clear(next, s)
    ensures Run(next, IDLE, s).log == Scan(next, s).frames
    ensures Run(next, IDLE, s).crcErrors == Scan(next, s).crcErrors
  {
    IdleHolds(next, IDLE);
    assert [] + s == s;
    ClearIsMild(next, s, IDLE, [], s);
    RunNear(next, IDLE, [], s, s);
  }
}
