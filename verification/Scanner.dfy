/** Scanning a byte stream with an arbitrary decision function for the front of the buffer.
    Everything here holds for every decision function with the stated properties. */
module Scanner {
  import opened Bytes
  import opened Framing

  /** What is to be done with the front of the buffer: wait for more bytes, drop n of them
      (a candidate with a wrong check field is counted), or take n of them as a frame. */
  datatype Decision = Wait | Skip(n: nat, counted: bool) | Accept(n: nat, frame: Frame)
  {
    function Taken(): nat {
      if Wait? then 0 else n
    }
    function Found(): seq<Frame> {
      if Accept? then [frame] else []
    }
    function Errors(): nat {
      if Skip? && counted then 1 else 0
    }
  }

  type Decider = seq<byte> -> Decision

  /** Frames found, candidates counted as errors, and the bytes left undecided. */
  datatype Scanned = Scanned(frames: seq<Frame>, crcErrors: nat, rest: seq<byte>)

  function Prepend(frames: seq<Frame>, errors: nat, r: Scanned): Scanned {
    Scanned(frames + r.frames, errors + r.crcErrors, r.rest)
  }

  function Scan(next: Decider, b: seq<byte>): Scanned
    decreases |b|
  {
    var d := next(b);
    if 0 < d.Taken() <= |b| then Prepend(d.Found(), d.Errors(), Scan(next, b[d.Taken()..]))
    else Scanned([], 0, b)
  }

  // ---- Properties of decision functions ---------------------------------------------

  /** A decision takes bytes that are there, and only waiting takes none. */
  ghost predicate Sound(next: Decider) {
    forall b :: SoundOn(next, b)
  }

  ghost predicate SoundOn(next: Decider, b: seq<byte>) {
    next(b).Taken() <= |b| && (next(b).Taken() == 0 ==> next(b).Wait?)
  }

  /** Bytes behind a decided front do not change the decision. */
  ghost predicate Stable(next: Decider) {
    forall a, b :: StableOn(next, a, b)
  }

  ghost predicate StableOn(next: Decider, a: seq<byte>, b: seq<byte>) {
    !next(a).Wait? ==> next(a + b) == next(a)
  }

  /** No offset that is skipped over could have been accepted. */
  ghost predicate Thorough(next: Decider) {
    forall b, i: nat :: ThoroughOn(next, b, i)
  }

  ghost predicate ThoroughOn(next: Decider, b: seq<byte>, i: nat) {
    next(b).Skip? && i < next(b).n && i <= |b| ==> !next(b[i..]).Accept?
  }

  // ---- Chunks do not matter -------------------------------------------------------

  lemma PrependAssociative(f: seq<Frame>, e: nat, g: seq<Frame>, k: nat, r: Scanned)
    ensures Prepend(f, e, Prepend(g, k, r)) == Prepend(f + g, e + k, r)
  {
  }

  /** Scanning a, then b behind what a left over, is scanning both at once. */
  lemma {:induction false} ScanInChunks(next: Decider, a: seq<byte>, b: seq<byte>)
    requires Sound(next) && Stable(next)
    ensures Scan(next, a + b) ==
            Prepend(Scan(next, a).frames, Scan(next, a).crcErrors, Scan(next, Scan(next, a).rest + b))
    decreases |a|
  {
    var d, n := next(a), next(a).Taken();
    assert SoundOn(next, a) && StableOn(next, a, b);
    if n > 0 {
      var r := Scan(next, a[n..]);
      assert (a + b)[n..] == a[n..] + b;
      ScanInChunks(next, a[n..], b);
      PrependAssociative(d.Found(), d.Errors(), r.frames, r.crcErrors, Scan(next, r.rest + b));
    }
  }

  /** What a scan left over is undecided: by itself it yields nothing more. */
  lemma {:induction false} RestWaits(next: Decider, b: seq<byte>)
    requires Sound(next)
    ensures next(Scan(next, b).rest).Wait?
    ensures |Scan(next, b).rest| <= |b| && Scan(next, b).rest == b[|b| - |Scan(next, b).rest|..]
    decreases |b|
  {
    var n := next(b).Taken();
    assert SoundOn(next, b);
    if n > 0 {
      RestWaits(next, b[n..]);
    }
  }

  // ---- Greedy leftmost scan ---------------------------------------------------------

  predicate AcceptedAt(next: Decider, s: seq<byte>, p: nat) {
    p <= |s| && next(s[p..]).Accept? && next(s[p..]).n <= |s| - p
  }

  /** starts are the offsets a greedy leftmost scan of s[from..stop] accepts: each is the first
      acceptable one behind the previous frame, and no acceptable one is left before stop. */
  ghost predicate Greedy(next: Decider, s: seq<byte>, from: nat, stop: nat, starts: seq<nat>)
    decreases |starts|
  {
    from <= stop <= |s| &&
    if starts == [] then forall p :: from <= p < stop ==> !AcceptedAt(next, s, p)
    else
      from <= starts[0] < stop && AcceptedAt(next, s, starts[0]) &&
      (forall p :: from <= p < starts[0] ==> !AcceptedAt(next, s, p)) &&
      Greedy(next, s, starts[0] + next(s[starts[0]..]).n, stop, starts[1..])
  }

  /** The frames at the given offsets. */
  ghost function FramesAt(next: Decider, s: seq<byte>, starts: seq<nat>): (r: seq<Frame>)
    requires forall k :: 0 <= k < |starts| ==> AcceptedAt(next, s, starts[k])
    ensures |r| == |starts|
  {
    if starts == [] then []
    else
      assert AcceptedAt(next, s, starts[0]);
      [next(s[starts[0]..]).frame] + FramesAt(next, s, starts[1..])
  }

  lemma {:induction false} GreedyAccepted(next: Decider, s: seq<byte>, from: nat, stop: nat, starts: seq<nat>)
    requires Greedy(next, s, from, stop, starts)
    ensures forall k :: 0 <= k < |starts| ==> AcceptedAt(next, s, starts[k])
    decreases |starts|
  {
    if starts != [] {
      GreedyAccepted(next, s, starts[0] + next(s[starts[0]..]).n, stop, starts[1..]);
      assert starts == [starts[0]] + starts[1..];
    }
  }

  /** There is only one greedy leftmost scan. */
  lemma {:induction false} GreedyUnique(next: Decider, s: seq<byte>, from: nat, stop: nat, x: seq<nat>, y: seq<nat>)
    requires Greedy(next, s, from, stop, x) && Greedy(next, s, from, stop, y)
    ensures x == y
    decreases |x|
  {
    if x != [] && y != [] {
      GreedyUnique(next, s, x[0] + next(s[x[0]..]).n, stop, x[1..], y[1..]);
      assert x == [x[0]] + x[1..] && y == [y[0]] + y[1..];
    }
  }

  lemma GreedyFromEarlier(next: Decider, s: seq<byte>, from: nat, after: nat, stop: nat, starts: seq<nat>)
    requires Greedy(next, s, after, stop, starts) && from <= after
    requires forall p :: from <= p < after ==> !AcceptedAt(next, s, p)
    ensures Greedy(next, s, from, stop, starts)
  {
  }

  lemma GreedyBehind(next: Decider, s: seq<byte>, from: nat, stop: nat, tail: seq<nat>)
    requires AcceptedAt(next, s, from) && from < stop
    requires Greedy(next, s, from + next(s[from..]).n, stop, tail)
    requires forall k :: 0 <= k < |tail| ==> AcceptedAt(next, s, tail[k])
    ensures Greedy(next, s, from, stop, [from] + tail)
    ensures forall k :: 0 <= k < |tail| + 1 ==> AcceptedAt(next, s, ([from] + tail)[k])
    ensures FramesAt(next, s, [from] + tail) == [next(s[from..]).frame] + FramesAt(next, s, tail)
  {
    var starts := [from] + tail;
    assert starts[1..] == tail;
  }

  lemma ScanFrom(next: Decider, s: seq<byte>, from: nat, d: Decision)
    requires Sound(next) && from <= |s| && d == next(s[from..])
    ensures |Scan(next, s[from..]).rest| <= |s|
    ensures d.Wait? ==> Scan(next, s[from..]) == Scanned([], 0, s[from..])
    ensures !d.Wait? ==> d.n > 0 && from + d.n <= |s|
    ensures !d.Wait? ==> Scan(next, s[from..]) == Prepend(d.Found(), d.Errors(), Scan(next, s[from + d.n..]))
  {
    var b := s[from..];
    assert SoundOn(next, b);
    RestWaits(next, b);
    if !d.Wait? {
      assert b[d.n..] == s[from + d.n..];
    }
  }

  lemma SkippedNotAccepted(next: Decider, s: seq<byte>, from: nat, p: nat)
    requires Thorough(next) && from <= p <= |s|
    requires next(s[from..]).Skip? && p < from + next(s[from..]).n
    ensures !AcceptedAt(next, s, p)
  {
    assert ThoroughOn(next, s[from..], p - from) && s[from..][p - from..] == s[p..];
  }

  /** A scan is the greedy leftmost scan of everything but its undecided rest. */
  lemma {:induction false} ScanIsGreedy(next: Decider, s: seq<byte>, from: nat) returns (starts: seq<nat>)
    requires Sound(next) && Thorough(next) && from <= |s|
    ensures |Scan(next, s[from..]).rest| <= |s|
    ensures Greedy(next, s, from, |s| - |Scan(next, s[from..]).rest|, starts)
    ensures forall k :: 0 <= k < |starts| ==> AcceptedAt(next, s, starts[k])
    ensures Scan(next, s[from..]).frames == FramesAt(next, s, starts)
    decreases |s| - from
  {
    var d := next(s[from..]);
    ScanFrom(next, s, from, d);
    if d.Wait? {
      starts := [];
    } else {
      var tail := ScanIsGreedy(next, s, from + d.n);
      var stop := |s| - |Scan(next, s[from + d.n..]).rest|;
      if d.Accept? {
        starts := [from] + tail;
        GreedyBehind(next, s, from, stop, tail);
      } else {
        starts := tail;
        forall p | from <= p < from + d.n ensures !AcceptedAt(next, s, p) {
          SkippedNotAccepted(next, s, from, p);
        }
        GreedyFromEarlier(next, s, from, from + d.n, stop, starts);
      }
    }
  }

  // ---- Errors ------------------------------------------------------------------------

  predicate CountedAt(next: Decider, s: seq<byte>, p: nat) {
    p <= |s| && next(s[p..]).Skip? && next(s[p..]).counted
  }

  /** No offset that is skipped over behind the first could have been counted. */
  ghost predicate Single(next: Decider) {
    forall b, i: nat :: SingleOn(next, b, i)
  }

  ghost predicate SingleOn(next: Decider, b: seq<byte>, i: nat) {
    next(b).Skip? && 0 < i < next(b).n && i <= |b| ==> !CountedAt(next, b, i)
  }

  /** How many offsets from a to b are counted. */
  function CountedIn(next: Decider, s: seq<byte>, a: nat, b: nat): nat
    decreases if a < b then b - a else 0
  {
    if a >= b then 0 else (if CountedAt(next, s, a) then 1 else 0) + CountedIn(next, s, a + 1, b)
  }

  /** How many offsets up to stop are counted, those inside the frames at the given offsets left out. */
  function CountedOutside(next: Decider, s: seq<byte>, from: nat, stop: nat, starts: seq<nat>): nat
    decreases |starts|
  {
    if starts == [] || starts[0] > |s| then CountedIn(next, s, from, stop)
    else
      CountedIn(next, s, from, starts[0]) +
      CountedOutside(next, s, starts[0] + next(s[starts[0]..]).Taken(), stop, starts[1..])
  }

  lemma {:induction false} CountedBehind(next: Decider, s: seq<byte>, from: nat, i: nat, stop: nat)
    requires Single(next) && from <= |s| && next(s[from..]).Skip?
    requires 0 < i <= next(s[from..]).n && from + next(s[from..]).n <= stop <= |s|
    ensures CountedIn(next, s, from + i, stop) == CountedIn(next, s, from + next(s[from..]).n, stop)
    decreases next(s[from..]).n - i
  {
    if i < next(s[from..]).n {
      assert SingleOn(next, s[from..], i) && s[from..][i..] == s[from + i..];
      CountedBehind(next, s, from, i + 1, stop);
    }
  }

  lemma CountedStep(next: Decider, s: seq<byte>, from: nat, to: nat, stop: nat, starts: seq<nat>)
    requires Single(next) && Sound(next) && Thorough(next) && from <= |s| && next(s[from..]).Skip?
    requires to == from + next(s[from..]).n <= stop && Greedy(next, s, from, stop, starts)
    ensures Greedy(next, s, to, stop, starts)
    ensures CountedOutside(next, s, from, stop, starts) ==
            next(s[from..]).Errors() + CountedOutside(next, s, to, stop, starts)
  {
    assert SoundOn(next, s[from..]);
    if starts != [] && starts[0] < to { SkippedNotAccepted(next, s, from, starts[0]); }
    CountedBehind(next, s, from, 1, if starts == [] then stop else starts[0]);
  }

  lemma CountedPast(next: Decider, s: seq<byte>, from: nat, to: nat, stop: nat, starts: seq<nat>)
    requires from < to <= stop && Greedy(next, s, from, stop, starts) && next(s[from..]).Accept?
    requires to == from + next(s[from..]).n
    ensures starts != [] && Greedy(next, s, to, stop, starts[1..])
    ensures CountedOutside(next, s, from, stop, starts) == CountedOutside(next, s, to, stop, starts[1..])
  {
    assert AcceptedAt(next, s, from);
    assert starts != [] && starts[0] == from;
  }

  /** A scan counts each countable offset in its decided part once, those inside accepted frames left
      out. */
  lemma {:induction false} ScanCounts(
      next: Decider, s: seq<byte>, from: nat, stop: nat, starts: seq<nat>, r: Scanned)
    requires Sound(next) && Thorough(next) && Single(next) && from <= |s|
    requires r == Scan(next, s[from..]) && stop + |r.rest| == |s| && Greedy(next, s, from, stop, starts)
    ensures r.crcErrors == CountedOutside(next, s, from, stop, starts)
    decreases |s| - from
  {
    var d := next(s[from..]);
    if d.Wait? {
      ScanFrom(next, s, from, d);
    } else {
      var to, q := BehindFirst(next, s, from, d, r);
      if d.Skip? {
        CountedStep(next, s, from, to, stop, starts);
        ScanCounts(next, s, to, stop, starts, q);
      } else {
        CountedPast(next, s, from, to, stop, starts);
        ScanCounts(next, s, to, stop, starts[1..], q);
      }
    }
  }

  lemma WholeScanCounts(next: Decider, s: seq<byte>) returns (starts: seq<nat>, stop: nat)
    requires Sound(next) && Thorough(next) && Single(next)
    ensures stop + |Scan(next, s).rest| == |s| && Greedy(next, s, 0, stop, starts)
    ensures |Scan(next, s).frames| == |starts|
    ensures Scan(next, s).crcErrors == CountedOutside(next, s, 0, stop, starts)
  {
    assert s[0..] == s;
    var r := Scan(next, s);
    starts := ScanIsGreedy(next, s, 0);
    stop := |s| - |r.rest|;
    ScanCounts(next, s, 0, stop, starts, r);
  }

  lemma BehindFirst(next: Decider, s: seq<byte>, from: nat, d: Decision, r: Scanned) returns (to: nat, q: Scanned)
    requires Sound(next) && from <= |s| && d == next(s[from..]) && !d.Wait? && r == Scan(next, s[from..])
    ensures from < to == from + d.n && to + |q.rest| <= |s|
    ensures q == Scan(next, s[to..]) && q.rest == r.rest && r.crcErrors == d.Errors() + q.crcErrors
  {
    ScanFrom(next, s, from, d);
    to := from + d.n;
    q := Scan(next, s[to..]);
    RestWaits(next, s[to..]);
  }

  /** Whatever is acceptable in the decided part is accepted, or lies inside an accepted frame. */
  lemma {:induction false} GreedyCovers(next: Decider, s: seq<byte>, from: nat, stop: nat, starts: seq<nat>, p: nat)
      returns (k: nat)
    requires Greedy(next, s, from, stop, starts)
    requires from <= p < stop && AcceptedAt(next, s, p)
    ensures k < |starts| && AcceptedAt(next, s, starts[k])
    ensures starts[k] <= p < starts[k] + next(s[starts[k]..]).n
    decreases |starts|
  {
    var n := next(s[starts[0]..]).n;
    if p < starts[0] + n {
      k := 0;
    } else {
      k := GreedyCovers(next, s, starts[0] + n, stop, starts[1..], p);
      k := k + 1;
    }
  }

  lemma {:induction false} FramesAtIndex(next: Decider, s: seq<byte>, starts: seq<nat>, k: nat)
    requires forall i :: 0 <= i < |starts| ==> AcceptedAt(next, s, starts[i])
    requires k < |starts|
    ensures FramesAt(next, s, starts)[k] == next(s[starts[k]..]).frame
  {
    if k > 0 {
      FramesAtIndex(next, s, starts[1..], k - 1);
    }
  }

  /** Whatever is acceptable in the decided part has been returned, unless an accepted frame in
      front of it overlaps it. */
  lemma NothingLost(next: Decider, s: seq<byte>, p: nat) returns (starts: seq<nat>, k: nat)
    requires Sound(next) && Thorough(next) && AcceptedAt(next, s, p)
    requires p + |Scan(next, s).rest| < |s|
    ensures Greedy(next, s, 0, |s| - |Scan(next, s).rest|, starts)
    ensures |Scan(next, s).frames| == |starts| && k < |starts| && AcceptedAt(next, s, starts[k])
    ensures starts[k] <= p < starts[k] + next(s[starts[k]..]).n
    ensures Scan(next, s).frames[k] == next(s[starts[k]..]).frame
  {
    assert s[0..] == s;
    starts := ScanIsGreedy(next, s, 0);
    k := GreedyCovers(next, s, 0, |s| - |Scan(next, s).rest|, starts, p);
    FramesAtIndex(next, s, starts, k);
  }

  // ---- Round trip ------------------------------------------------------------------

  type Encoder = Frame -> seq<byte>

  /** next takes exactly e for f, and waits for the end of it. */
  ghost predicate Decodes(next: Decider, e: seq<byte>, f: Frame) {
    |e| > 0 && next(e) == Accept(|e|, f) && forall k :: 0 <= k < |e| ==> next(e[..k]).Wait?
  }

  ghost predicate DecodesAll(next: Decider, enc: Encoder, fs: seq<Frame>) {
    forall f :: f in fs ==> Decodes(next, enc(f), f)
  }

  function EncodeAll(enc: Encoder, fs: seq<Frame>): seq<byte> {
    if fs == [] then [] else enc(fs[0]) + EncodeAll(enc, fs[1..])
  }

  lemma {:induction false} EncodeAllConcat(enc: Encoder, a: seq<Frame>, b: seq<Frame>)
    ensures EncodeAll(enc, a + b) == EncodeAll(enc, a) + EncodeAll(enc, b)
    decreases |a|
  {
    if a == [] {
      assert a + b == b;
    } else {
      assert (a + b)[1..] == a[1..] + b;
      EncodeAllConcat(enc, a[1..], b);
    }
  }

  lemma EncodeAllLonger(enc: Encoder, fs: seq<Frame>, n: nat)
    requires n <= |fs|
    ensures |EncodeAll(enc, fs[..n])| <= |EncodeAll(enc, fs)|
  {
    EncodeAllConcat(enc, fs[..n], fs[n..]);
    assert fs == fs[..n] + fs[n..];
  }

  lemma ScanOne(next: Decider, e: seq<byte>, f: Frame, more: seq<byte>)
    requires Sound(next) && Stable(next) && Decodes(next, e, f)
    ensures Scan(next, e + more) == Prepend([f], 0, Scan(next, more))
  {
    assert StableOn(next, e, more) && (e + more)[|e|..] == more;
  }

  /** Encoded frames in front of anything come back first, in order and without an error. */
  lemma {:induction false} ScanEncoded(next: Decider, enc: Encoder, fs: seq<Frame>, tail: seq<byte>)
    requires Sound(next) && Stable(next) && DecodesAll(next, enc, fs)
    ensures Scan(next, EncodeAll(enc, fs) + tail) == Prepend(fs, 0, Scan(next, tail))
    decreases |fs|
  {
    if fs == [] {
      assert EncodeAll(enc, fs) + tail == tail;
    } else {
      var more := EncodeAll(enc, fs[1..]) + tail;
      assert fs[0] in fs && EncodeAll(enc, fs) + tail == enc(fs[0]) + more;
      ScanOne(next, enc(fs[0]), fs[0], more);
      ScanEncoded(next, enc, fs[1..], tail);
      PrependAssociative([fs[0]], 0, fs[1..], 0, Scan(next, tail));
      assert fs == [fs[0]] + fs[1..];
    }
  }

  lemma PrefixBehind(w: seq<byte>, e: seq<byte>, t: seq<byte>)
    requires w <= e + t && |e| <= |w|
    ensures w == e + w[|e|..] && w[|e|..] <= t
  {
    assert t == (e + t)[|e|..];
  }

  lemma EncodeAllFirst(enc: Encoder, fs: seq<Frame>, n: nat)
    requires n < |fs|
    ensures EncodeAll(enc, fs[..n + 1]) == enc(fs[0]) + EncodeAll(enc, fs[1..][..n])
  {
    assert fs[..n + 1][1..] == fs[1..][..n];
  }

  /** Of the encodings one after another, the first n lie whole within that many bytes, and no more. */
  ghost predicate WholeWithin(enc: Encoder, fs: seq<Frame>, n: nat, length: nat) {
    n <= |fs| && |EncodeAll(enc, fs[..n])| <= length && (n < |fs| ==> length < |EncodeAll(enc, fs[..n + 1])|)
  }

  /** From any beginning of the encodings a scan recovers exactly the complete frames, in order. */
  lemma {:induction false} ScanPrefix(next: Decider, enc: Encoder, fs: seq<Frame>, w: seq<byte>) returns (n: nat)
    requires Sound(next) && Stable(next) && DecodesAll(next, enc, fs)
    requires w <= EncodeAll(enc, fs)
    ensures n <= |fs| && EncodeAll(enc, fs[..n]) <= w
    ensures Scan(next, w) == Scanned(fs[..n], 0, w[|EncodeAll(enc, fs[..n])|..])
    ensures n < |fs| ==> |w| < |EncodeAll(enc, fs[..n + 1])|
    decreases |fs|
  {
    n := 0;
    if fs == [] {
      assert w == [] && SoundOn(next, w);
    } else if |w| < |enc(fs[0])| {
      assert fs[0] in fs && w == enc(fs[0])[..|w|];
      EncodeAllFirst(enc, fs, 0);
    } else {
      assert fs[0] in fs;
      PrefixBehind(w, enc(fs[0]), EncodeAll(enc, fs[1..]));
      n := ScanPrefix(next, enc, fs[1..], w[|enc(fs[0])|..]);
      PrefixStep(next, enc, fs, w, n);
      n := n + 1;
    }
  }

  lemma PrefixStep(next: Decider, enc: Encoder, fs: seq<Frame>, w: seq<byte>, n: nat)
    requires Sound(next) && Stable(next) && fs != [] && Decodes(next, enc(fs[0]), fs[0])
    requires enc(fs[0]) <= w && n < |fs|
    requires var v := w[|enc(fs[0])|..];
             EncodeAll(enc, fs[1..][..n]) <= v &&
             Scan(next, v) == Scanned(fs[1..][..n], 0, v[|EncodeAll(enc, fs[1..][..n])|..]) &&
             (n + 1 < |fs| ==> |v| < |EncodeAll(enc, fs[1..][..n + 1])|)
    ensures EncodeAll(enc, fs[..n + 1]) <= w
    ensures Scan(next, w) == Scanned(fs[..n + 1], 0, w[|EncodeAll(enc, fs[..n + 1])|..])
    ensures n + 1 < |fs| ==> |w| < |EncodeAll(enc, fs[..n + 2])|
  {
    var e, v := enc(fs[0]), w[|enc(fs[0])|..];
    assert w == e + v;
    ScanOne(next, e, fs[0], v);
    EncodeAllFirst(enc, fs, n);
    if n + 1 < |fs| {
      EncodeAllFirst(enc, fs, n + 1);
    }
    TakeOneMore(fs, n);
  }

  lemma TakeOneMore(fs: seq<Frame>, n: nat)
    requires n < |fs|
    ensures fs[..n + 1] == [fs[0]] + fs[1..][..n]
  {
  }
}
