/** The UBX stream of the on-board GNSS receiver: the Fletcher checksum, and what the bytes on the
    wire say when nothing is ever scanned twice. */
module Ubx {
  import opened Bytes

  const PREAMBLE1: byte := 0xB5
  const PREAMBLE2: byte := 0x62
  const HEADER: nat := 6
  const CLASS_NAV: byte := 0x01
  const ID_NAV_PVT: byte := 0x07
  const NAV_PVT_SIZE: nat := 92
  const PREAMBLE: seq<byte> := [PREAMBLE1, PREAMBLE2]

  // ---- Fletcher checksum -------------------------------------------------------------------

  datatype Sums = Sums(a: byte, b: byte)

  function Fold(data: seq<byte>, s: Sums): Sums
    decreases |data|
  {
    if data == [] then s
    else
      var a := (s.a + data[0]) % 256;
      Fold(data[1..], Sums(a, (s.b + a) % 256))
  }

  function Checksum(data: seq<byte>): Sums {
    Fold(data, Sums(0, 0))
  }

  method AddToChecksum(data: seq<byte>, s: Sums) returns (r: Sums)
    ensures r == Fold(data, s)
  {
    r := s;
    var i := 0;
    while i < |data|
      invariant 0 <= i <= |data|
      invariant Fold(data[i..], r) == Fold(data, s)
    {
      var a := (r.a + data[i]) % 256;
      r := Sums(a, (r.b + a) % 256);
      i := i + 1;
    }
  }

  /** Header first and payload second is the checksum of both together. */
  lemma {:induction false} FoldConcat(x: seq<byte>, y: seq<byte>, s: Sums)
    ensures Fold(x + y, s) == Fold(y, Fold(x, s))
    decreases |x|
  {
    if x == [] {
      assert x + y == y;
    } else {
      assert (x + y)[1..] == x[1..] + y;
      var a := (s.a + x[0]) % 256;
      FoldConcat(x[1..], y, Sums(a, (s.b + a) % 256));
    }
  }

  function Sum(data: seq<byte>): nat {
    if data == [] then 0 else data[0] + Sum(data[1..])
  }

  /** Each byte counted once for itself and once for every byte after it. */
  function WeightedSum(data: seq<byte>): nat {
    if data == [] then 0 else |data| * data[0] + WeightedSum(data[1..])
  }

  lemma Multiple(x: int, k: int)
    ensures (x + 256 * k) % 256 == x % 256
  {
  }

  lemma ClosedStep(a0: int, b0: int, d: int, n: int, sum: int, weighted: int)
    ensures var a := (a0 + d) % 256;
            var b := (b0 + a) % 256;
            (a + sum) % 256 == (a0 + (d + sum)) % 256 &&
            (b + n * a + weighted) % 256 == (b0 + (n + 1) * a0 + ((n + 1) * d + weighted)) % 256
  {
    var q, a := (a0 + d) / 256, (a0 + d) % 256;
    var r, b := (b0 + a) / 256, (b0 + a) % 256;
    Multiple(a + sum, q);
    assert (n + 1) * (a0 + d) == (n + 1) * a0 + (n + 1) * d;
    assert (n + 1) * (a + 256 * q) == n * a + a + 256 * ((n + 1) * q);
    Multiple(b + n * a + weighted, r + (n + 1) * q);
    assert b + n * a + weighted + 256 * (r + (n + 1) * q) == b0 + (n + 1) * a0 + ((n + 1) * d + weighted);
  }

  lemma {:induction false} ClosedForm(data: seq<byte>, s: Sums)
    ensures Fold(data, s).a == (s.a + Sum(data)) % 256
    ensures Fold(data, s).b == (s.b + |data| * s.a + WeightedSum(data)) % 256
    decreases |data|
  {
    if data != [] {
      var a := (s.a + data[0]) % 256;
      ClosedForm(data[1..], Sums(a, (s.b + a) % 256));
      ClosedStep(s.a, s.b, data[0], |data| - 1, Sum(data[1..]), WeightedSum(data[1..]));
    }
  }

  lemma {:induction false} SumsConcat(x: seq<byte>, y: seq<byte>)
    ensures Sum(x + y) == Sum(x) + Sum(y)
    ensures WeightedSum(x + y) == WeightedSum(x) + |y| * Sum(x) + WeightedSum(y)
  {
    if x == [] {
      assert x + y == y;
    } else {
      assert (x + y)[1..] == x[1..] + y;
      SumsConcat(x[1..], y);
      assert (|x| + |y|) * x[0] == |x| * x[0] + |y| * x[0];
      assert |y| * (x[0] + Sum(x[1..])) == |y| * x[0] + |y| * Sum(x[1..]);
    }
  }

  lemma PairSums(p: byte, q: byte)
    ensures Sum([p, q]) == p + q
    ensures WeightedSum([p, q]) == 2 * p + q
  {
    assert [p, q][1..] == [q] && [q][1..] == [];
    assert Sum([q]) == q + Sum([]) && WeightedSum([q]) == 1 * q + WeightedSum([]);
    assert Sum([p, q]) == p + Sum([q]) && WeightedSum([p, q]) == 2 * p + WeightedSum([q]);
  }

  /** The checksum of a message with two neighbouring bytes, n bytes from its end. */
  lemma AroundPair(x: seq<byte>, p: byte, q: byte, y: seq<byte>, n: nat) returns (ca: nat, cb: nat)
    requires n == |y|
    ensures ca == Sum(x) + Sum(y) && cb == WeightedSum(x) + (n + 2) * Sum(x) + WeightedSum(y)
    ensures Checksum(x + [p, q] + y).a == (ca + (p + q)) % 256
    ensures Checksum(x + [p, q] + y).b == (cb + (n * (p + q) + (2 * p + q))) % 256
  {
    ca := Sum(x) + Sum(y);
    cb := WeightedSum(x) + (n + 2) * Sum(x) + WeightedSum(y);
    assert x + [p, q] + y == x + ([p, q] + y);
    PairInside(x, p, q, y, n);
    FromZero(x + ([p, q] + y));
  }

  lemma FromZero(data: seq<byte>)
    ensures Checksum(data) == Sums(Sum(data) % 256, WeightedSum(data) % 256)
  {
    ClosedForm(data, Sums(0, 0));
    assert |data| * 0 == 0;
  }

  lemma PairInside(x: seq<byte>, p: byte, q: byte, y: seq<byte>, n: nat)
    requires n == |y|
    ensures Sum(x + ([p, q] + y)) == Sum(x) + Sum(y) + (p + q)
    ensures WeightedSum(x + ([p, q] + y)) ==
            WeightedSum(x) + (n + 2) * Sum(x) + WeightedSum(y) + (n * (p + q) + (2 * p + q))
  {
    SumsConcat(x, [p, q] + y);
    SumsConcat([p, q], y);
    PairSums(p, q);
  }

  lemma SameResidue(c: int, u: int, v: int) returns (k: int)
    requires (c + u) % 256 == (c + v) % 256
    ensures u - v == 256 * k
  {
    k := (c + u) / 256 - (c + v) / 256;
  }

  lemma PairResidues(n: int, ca: int, cb: int, p: byte, q: byte, p': byte, q': byte)
    requires (ca + (p + q)) % 256 == (ca + (p' + q')) % 256
    requires (cb + (n * (p + q) + (2 * p + q))) % 256 == (cb + (n * (p' + q') + (2 * p' + q'))) % 256
    ensures p == p' && q == q'
  {
    var u, v, un, vn := p + q, p' + q', n * (p + q), n * (p' + q');
    var k := SameResidue(ca, u, v);
    var h := SameResidue(cb, un + (2 * p + q), vn + (2 * p' + q'));
    NearMultiples(n, u, v, k);
    SmallMultiple(p - p', h - n * k - k);
  }

  lemma NearMultiples(n: int, u: int, v: int, k: int)
    requires u - v == 256 * k
    ensures n * u - n * v == 256 * (n * k)
  {
    assert n * u - n * v == n * (u - v);
  }

  lemma SmallMultiple(d: int, k: int)
    requires d == 256 * k && -256 < d < 256
    ensures d == 0
  {
  }

  /** Damage to two neighbouring bytes, of any kind, never goes unnoticed. */
  lemma PairDamageDetected(x: seq<byte>, p: byte, q: byte, p': byte, q': byte, y: seq<byte>)
    requires (p, q) != (p', q')
    ensures Checksum(x + [p, q] + y) != Checksum(x + [p', q'] + y)
  {
    var ca, cb := AroundPair(x, p, q, y, |y|);
    var _, _ := AroundPair(x, p', q', y, |y|);
    if Checksum(x + [p, q] + y) == Checksum(x + [p', q'] + y) {
      PairResidues(|y|, ca, cb, p, q, p', q');
    }
  }

  // ---- Messages on the wire ----------------------------------------------------------------

  datatype Message = Message(cls: byte, id: byte, payload: seq<byte>)

  datatype Event = Good(message: Message) | BadChecksum | Oversize

  predicate Sendable(m: Message, limit: nat) {
    |m.payload| <= limit && |m.payload| < 0x1_0000
  }

  function Body(m: Message): seq<byte>
    requires |m.payload| < 0x1_0000
  {
    [m.cls, m.id] + PutLe16(|m.payload|) + m.payload
  }

  function Encode(m: Message): (r: seq<byte>)
    requires |m.payload| < 0x1_0000
    ensures |r| == HEADER + |m.payload| + 2
  {
    var s := Checksum(Body(m));
    PREAMBLE + Body(m) + [s.a, s.b]
  }

  function PayloadLength(s: seq<byte>): nat
    requires |s| >= HEADER
  {
    GetLe16(s[4], s[5])
  }

  /** What a whole candidate of the announced length turns out to be. */
  function Verdict(s: seq<byte>): (e: Event)
    requires |s| >= HEADER && |s| == HEADER + PayloadLength(s) + 2
    ensures !e.Oversize?
  {
    var n := PayloadLength(s);
    if Checksum(s[2..HEADER + n]) == Sums(s[HEADER + n], s[HEADER + n + 1])
    then Good(Message(s[2], s[3], s[HEADER..HEADER + n]))
    else BadChecksum
  }

  datatype Parsed = Parsed(events: seq<Event>, rest: seq<byte>)

  /** How many bytes go, and what they come to, when the stream starts with s. */
  datatype Cut = NeedMore | Drop | Take(n: nat, event: Event)

  function Candidate(s: seq<byte>, limit: nat): (c: Cut)
    requires s != []
    ensures c.Take? ==> HEADER <= c.n <= |s|
  {
    if s[0] != PREAMBLE1 then Drop
    else if |s| == 1 then NeedMore
    else if s[1] != PREAMBLE2 then Drop
    else if |s| < HEADER then NeedMore
    else if PayloadLength(s) > limit then Take(HEADER, Oversize)
    else
      var n := HEADER + PayloadLength(s) + 2;
      if |s| < n then NeedMore else Take(n, Verdict(s[..n]))
  }

  /** The stream read from its front: no byte is looked at twice. */
  function Parse(s: seq<byte>, limit: nat): (r: Parsed)
    ensures r.rest != [] ==> Candidate(r.rest, limit) == NeedMore
    decreases |s|
  {
    if s == [] then Parsed([], [])
    else
      match Candidate(s, limit)
      case NeedMore => Parsed([], s)
      case Drop => Parse(s[1..], limit)
      case Take(n, e) =>
        var r := Parse(s[n..], limit);
        Parsed([e] + r.events, r.rest)
  }

  lemma CandidateExtends(s: seq<byte>, t: seq<byte>, limit: nat)
    requires s != [] && Candidate(s, limit) != NeedMore
    ensures Candidate(s + t, limit) == Candidate(s, limit)
  {
    var c := Candidate(s, limit);
    if c.Take? && c.event != Oversize { assert (s + t)[..c.n] == s[..c.n]; }
  }

  /** Reading on: what was undecided is read again with what follows it, the rest stands. */
  lemma {:induction false} ParseConcat(s: seq<byte>, t: seq<byte>, limit: nat)
    ensures var r := Parse(s, limit);
            var u := Parse(r.rest + t, limit);
            Parse(s + t, limit) == Parsed(r.events + u.events, u.rest)
    decreases |s|
  {
    if s == [] {
      assert s + t == t;
    } else {
      var c := Candidate(s, limit);
      if c != NeedMore {
        CandidateExtends(s, t, limit);
        var n := if c.Drop? then 1 else c.n;
        assert (s + t)[n..] == s[n..] + t;
        ParseConcat(s[n..], t, limit);
        if c.Take? {
          var r := Parse(s[n..], limit);
          var u := Parse(r.rest + t, limit);
          assert [c.event] + (r.events + u.events) == ([c.event] + r.events) + u.events;
        }
      }
    }
  }

  // ---- What the bytes of one message mean --------------------------------------------------

  /** The bytes between preamble and checksum. */
  predicate IsBody(body: seq<byte>, m: Message) {
    |body| == 4 + |m.payload| && body[0] == m.cls && body[1] == m.id &&
    GetLe16(body[2], body[3]) == |m.payload| && body[4..] == m.payload
  }

  predicate IsCandidate(s: seq<byte>, body: seq<byte>, a: nat, b: nat) {
    |s| == |body| + 4 && s[0] == 0xB5 && s[1] == 0x62 && s[2..|s| - 2] == body && s[|s| - 2] == a && s[|s| - 1] == b
  }

  lemma BodyIs(body: seq<byte>, m: Message)
    requires IsBody(body, m) && |m.payload| < 0x1_0000
    ensures body == Body(m)
  {
    assert body[2..4] == PutLe16(|m.payload|);
    assert body == [body[0], body[1]] + body[2..4] + body[4..];
  }

  lemma CandidateIs(s: seq<byte>, body: seq<byte>, a: byte, b: byte)
    requires IsCandidate(s, body, a, b)
    ensures s == PREAMBLE + body + [a, b]
  {
    assert s == s[..2] + s[2..|s| - 2] + [a, b];
  }

  /** A message on the wire, byte by byte: its last two bytes are the plain and the weighted sum of
      those between preamble and checksum. */
  lemma EncodeLayout(m: Message)
    requires |m.payload| < 0x1_0000
    ensures IsBody(Body(m), m)
    ensures IsCandidate(Encode(m), Body(m), Sum(Body(m)) % 256, WeightedSum(Body(m)) % 256)
  {
    FromZero(Body(m));
  }

  lemma ParseFirst(s: seq<byte>, t: seq<byte>, e: Event, limit: nat)
    requires s != [] && Candidate(s, limit) == Take(|s|, e)
    ensures Parse(s + t, limit) == Parsed([e] + Parse(t, limit).events, Parse(t, limit).rest)
  {
    CandidateExtends(s, t, limit);
    assert (s + t)[|s|..] == t;
  }

  /** Six bytes that announce more than the limit are passed over and reported. */
  lemma OversizeIsReported(s: seq<byte>, t: seq<byte>, limit: nat)
    requires |s| == 6 && s[0] == 0xB5 && s[1] == 0x62 && s[4] + 256 * s[5] > limit
    ensures Parse(s + t, limit) == Parsed([Oversize] + Parse(t, limit).events, Parse(t, limit).rest)
  {
    ParseFirst(s, t, Oversize, limit);
  }

  lemma CandidateIsWhole(s: seq<byte>, m: Message, a: byte, b: byte, limit: nat)
    requires Sendable(m, limit) && s == PREAMBLE + Body(m) + [a, b]
    ensures Candidate(s, limit) == Take(|s|, if Checksum(Body(m)) == Sums(a, b) then Good(m) else BadChecksum)
  {
    var n := |m.payload|;
    assert s[..|s|] == s;
    assert PayloadLength(s) == n;
    assert s[2..HEADER + n] == Body(m);
    assert s[HEADER..HEADER + n] == m.payload;
  }

  /** A whole candidate is a message if its last two bytes are those sums, and else a bad checksum. */
  lemma CandidateIsJudged(s: seq<byte>, body: seq<byte>, m: Message, a: byte, b: byte, t: seq<byte>, limit: nat)
    requires Sendable(m, limit) && IsBody(body, m) && IsCandidate(s, body, a, b)
    ensures var e := if a == Sum(body) % 256 && b == WeightedSum(body) % 256 then Good(m) else BadChecksum;
            Parse(s + t, limit) == Parsed([e] + Parse(t, limit).events, Parse(t, limit).rest)
  {
    BodyIs(body, m);
    FromZero(body);
    CandidateIs(s, body, a, b);
    CandidateIsWhole(s, m, a, b, limit);
    ParseFirst(s, t, if Checksum(body) == Sums(a, b) then Good(m) else BadChecksum, limit);
  }

  /** Two neighbouring payload bytes damaged in any way: one bad checksum, and nothing else is lost. */
  lemma DamageIsReported(m: Message, x: seq<byte>, p: byte, q: byte, y: seq<byte>, p': byte, q': byte, t: seq<byte>,
                         limit: nat)
    requires Sendable(m, limit) && m.payload == x + [p, q] + y && (p', q') != (p, q)
    ensures var c := Checksum(Body(m));
            Parse(PREAMBLE + Body(m.(payload := x + [p', q'] + y)) + [c.a, c.b] + t, limit) ==
            Parsed([BadChecksum] + Parse(t, limit).events, Parse(t, limit).rest)
  {
    var damaged := m.(payload := x + [p', q'] + y);
    var c := Checksum(Body(m));
    DamagedSums(m, x, p, q, y, p', q');
    var s := PREAMBLE + Body(damaged) + [c.a, c.b];
    CandidateIsWhole(s, damaged, c.a, c.b, limit);
    ParseFirst(s, t, BadChecksum, limit);
  }

  lemma DamagedSums(m: Message, x: seq<byte>, p: byte, q: byte, y: seq<byte>, p': byte, q': byte)
    requires |m.payload| < 0x1_0000 && m.payload == x + [p, q] + y && (p', q') != (p, q)
    ensures Checksum(Body(m.(payload := x + [p', q'] + y))) != Checksum(Body(m))
  {
    var h := [m.cls, m.id] + PutLe16(|m.payload|) + x;
    assert Body(m) == h + [p, q] + y && Body(m.(payload := x + [p', q'] + y)) == h + [p', q'] + y;
    PairDamageDetected(h, p, q, p', q', y);
  }

  // ---- Round trip and resynchronisation ----------------------------------------------------

  lemma EncodeIsGood(m: Message, t: seq<byte>, limit: nat)
    requires Sendable(m, limit)
    ensures Candidate(Encode(m) + t, limit) == Take(|Encode(m)|, Good(m))
  {
    var s := Encode(m);
    var n := |m.payload|;
    assert s[..|s|] == s;
    assert PayloadLength(s) == n;
    assert s[2..HEADER + n] == Body(m);
    assert s[HEADER..HEADER + n] == m.payload;
    CandidateExtends(s, t, limit);
  }

  lemma ParseEncoded(m: Message, t: seq<byte>, limit: nat)
    requires Sendable(m, limit)
    ensures Parse(Encode(m) + t, limit).events == [Good(m)] + Parse(t, limit).events
    ensures Parse(Encode(m) + t, limit).rest == Parse(t, limit).rest
  {
    EncodeIsGood(m, t, limit);
    assert (Encode(m) + t)[|Encode(m)|..] == t;
  }

  /** A preamble begins nowhere in s from position i on. */
  predicate Quiet(s: seq<byte>, i: nat) {
    forall k :: i <= k < |s| - 1 ==> s[k] != PREAMBLE1 || s[k + 1] != PREAMBLE2
  }

  /** Bytes without a preamble are passed over, even when a lone first preamble byte ends them. */
  lemma {:induction false} QuietIsDropped(s: seq<byte>, t: seq<byte>, limit: nat)
    requires Quiet(s, 0) && (t == [] || t[0] == PREAMBLE1)
    ensures Parse(s + t, limit).events == Parse(t, limit).events
    ensures t != [] ==> Parse(s + t, limit).rest == Parse(t, limit).rest
    decreases |s|
  {
    if s == [] {
      assert s + t == t;
    } else {
      var w := s + t;
      assert w[1..] == s[1..] + t;
      assert |s| > 1 ==> w[1] == s[1] && (s[0] != PREAMBLE1 || s[1] != PREAMBLE2);
      QuietIsDropped(s[1..], t, limit);
    }
  }

  function EncodeAll(ms: seq<Message>): seq<byte>
    requires forall m :: m in ms ==> |m.payload| < 0x1_0000
  {
    if ms == [] then [] else Encode(ms[0]) + EncodeAll(ms[1..])
  }

  predicate AllSendable(ms: seq<Message>, limit: nat) {
    forall m :: m in ms ==> Sendable(m, limit)
  }

  function AllGood(ms: seq<Message>): seq<Event> {
    seq(|ms|, i requires 0 <= i < |ms| => Good(ms[i]))
  }

  /** Whatever was sent comes back, in order and with nothing in between. */
  lemma {:induction false} RoundTrip(ms: seq<Message>, t: seq<byte>, limit: nat)
    requires AllSendable(ms, limit)
    ensures Parse(EncodeAll(ms) + t, limit) == Parsed(AllGood(ms) + Parse(t, limit).events, Parse(t, limit).rest)
    decreases |ms|
  {
    if ms == [] {
      assert EncodeAll(ms) + t == t;
      assert AllGood(ms) + Parse(t, limit).events == Parse(t, limit).events;
    } else {
      var rest := ms[1..];
      RoundTrip(rest, t, limit);
      ParseEncoded(ms[0], EncodeAll(rest) + t, limit);
      Regroup(Encode(ms[0]), EncodeAll(rest), t);
      GoodCons(ms, Parse(t, limit).events);
    }
  }

  lemma Regroup(a: seq<byte>, b: seq<byte>, c: seq<byte>)
    ensures a + b + c == a + (b + c)
  {
  }

  lemma GoodCons(ms: seq<Message>, es: seq<Event>)
    requires ms != []
    ensures AllGood(ms) + es == [Good(ms[0])] + (AllGood(ms[1..]) + es)
  {
  }

  /** No byte pair inside the message looks like the start of another. */
  predicate Clean(m: Message)
    requires |m.payload| < 0x1_0000
  {
    Quiet(Encode(m), 1)
  }

  predicate AllClean(ms: seq<Message>)
    requires forall m :: m in ms ==> |m.payload| < 0x1_0000
  {
    forall m :: m in ms ==> Clean(m)
  }

  lemma EncodeAllSplit(ms: seq<Message>, limit: nat)
    requires AllSendable(ms, limit) && ms != []
    ensures AllSendable(ms[1..], limit)
    ensures EncodeAll(ms) == Encode(ms[0]) + EncodeAll(ms[1..])
    ensures EncodeAll(ms)[0] == PREAMBLE1
  {
  }

  /** Length on the wire of the first j messages. */
  function Offset(ms: seq<Message>, j: nat): nat
    requires j <= |ms|
  {
    if j == 0 then 0 else HEADER + |ms[0].payload| + 2 + Offset(ms[1..], j - 1)
  }

  lemma SkipTail(e: seq<byte>, p: nat, ms: seq<Message>, limit: nat)
    requires 0 < p <= |e| && Quiet(e, 1) && AllSendable(ms, limit)
    ensures Parse(e[p..] + EncodeAll(ms), limit).events == AllGood(ms)
  {
    forall k | 0 <= k < |e[p..]| - 1 ensures e[p..][k] != PREAMBLE1 || e[p..][k + 1] != PREAMBLE2 {
      assert e[p..][k] == e[p + k] && e[p..][k + 1] == e[p + k + 1];
    }
    if ms != [] { EncodeAllSplit(ms, limit); }
    QuietIsDropped(e[p..], EncodeAll(ms), limit);
    AllReceived(ms, limit);
  }

  lemma AllReceived(ms: seq<Message>, limit: nat)
    requires AllSendable(ms, limit)
    ensures Parse(EncodeAll(ms), limit) == Parsed(AllGood(ms), [])
  {
    RoundTrip(ms, [], limit);
    assert EncodeAll(ms) == EncodeAll(ms) + [];
    assert AllGood(ms) + [] == AllGood(ms);
  }

  /** From p bytes into a run of clean messages, reading resumes with the first one that starts
      at p or later. */
  lemma {:induction false} ResumeAt(ms: seq<Message>, p: nat, limit: nat) returns (j: nat)
    requires AllSendable(ms, limit) && AllClean(ms) && p <= |EncodeAll(ms)|
    ensures j <= |ms| && (j > 0 ==> Offset(ms, j - 1) < p)
    ensures Parse(EncodeAll(ms)[p..], limit).events == AllGood(ms[j..])
    decreases |ms|
  {
    if p == 0 {
      j := 0;
      AllReceived(ms, limit);
      assert EncodeAll(ms)[p..] == EncodeAll(ms) && ms[0..] == ms;
    } else {
      EncodeAllSplit(ms, limit);
      var e, rest := Encode(ms[0]), ms[1..];
      assert ms[0] in ms && Clean(ms[0]);
      if p <= |e| {
        j := 1;
        assert EncodeAll(ms)[p..] == e[p..] + EncodeAll(rest);
        SkipTail(e, p, rest, limit);
      } else {
        var i := ResumeAt(rest, p - |e|, limit);
        j := i + 1;
        assert rest[i..] == ms[j..];
        assert EncodeAll(ms)[p..] == EncodeAll(rest)[p - |e|..];
      }
    }
  }

  lemma UndecidedTake(rest: seq<byte>, t: seq<byte>, limit: nat)
    requires rest != [] && Candidate(rest, limit) == NeedMore && |rest| >= 2
    ensures Candidate(rest + t, limit) != Drop
    ensures Candidate(rest + t, limit).Take? ==> |rest| < Candidate(rest + t, limit).n <= HEADER + limit + 2
    ensures Candidate(rest + t, limit).NeedMore? ==> |rest + t| < HEADER + limit + 2
  {
  }

  lemma {:induction false} OffsetIsLength(ms: seq<Message>, limit: nat)
    requires AllSendable(ms, limit)
    ensures Offset(ms, |ms|) == |EncodeAll(ms)|
    decreases |ms|
  {
    if ms != [] { OffsetIsLength(ms[1..], limit); }
  }

  lemma {:induction false} OffsetGrows(ms: seq<Message>, j: nat)
    requires 0 < j <= |ms|
    ensures Offset(ms, j - 1) < Offset(ms, j)
  {
    if j > 1 { OffsetGrows(ms[1..], j - 1); }
  }

  lemma ParseTake(s: seq<byte>, limit: nat)
    requires s != [] && Candidate(s, limit).Take?
    ensures Parse(s, limit).events == [Candidate(s, limit).event] + Parse(s[Candidate(s, limit).n..], limit).events
  {
  }

  lemma BehindCandidate(rest: seq<byte>, ms: seq<Message>, c: Cut, limit: nat) returns (j: nat)
    requires |rest| >= 2 && AllSendable(ms, limit) && AllClean(ms)
    requires c == Candidate(rest + EncodeAll(ms), limit) && c.Take? && |rest| < c.n <= HEADER + limit + 2
    ensures j <= |ms| && (j > 0 ==> Offset(ms, j - 1) < HEADER + limit)
    ensures Parse(rest + EncodeAll(ms), limit).events == [c.event] + AllGood(ms[j..])
  {
    var e := EncodeAll(ms);
    ParseTake(rest + e, limit);
    assert (rest + e)[c.n..] == e[c.n - |rest|..];
    j := ResumeAt(ms, c.n - |rest|, limit);
  }

  lemma NothingBehind(rest: seq<byte>, ms: seq<Message>, limit: nat)
    requires |rest| >= 2 && AllSendable(ms, limit) && |rest + EncodeAll(ms)| < HEADER + limit + 2
    ensures |ms| > 0 ==> Offset(ms, |ms| - 1) < HEADER + limit
    ensures AllGood(ms[|ms|..]) == []
  {
    OffsetIsLength(ms, limit);
    if |ms| > 0 { OffsetGrows(ms, |ms|); }
  }

  lemma ResumeBehindCandidate(rest: seq<byte>, ms: seq<Message>, limit: nat) returns (junk: seq<Event>, j: nat)
    requires |rest| >= 2 && Candidate(rest, limit) == NeedMore
    requires AllSendable(ms, limit) && AllClean(ms)
    ensures |junk| <= 1 && j <= |ms|
    ensures Parse(rest + EncodeAll(ms), limit).events == junk + AllGood(ms[j..])
    ensures j > 0 ==> Offset(ms, j - 1) < HEADER + limit
  {
    var e := EncodeAll(ms);
    UndecidedTake(rest, e, limit);
    var c := Candidate(rest + e, limit);
    if c.NeedMore? {
      junk, j := [], |ms|;
      NothingBehind(rest, ms, limit);
    } else {
      junk := [c.event];
      j := BehindCandidate(rest, ms, c, limit);
    }
  }

  /** After any bytes whatever, at most one candidate more comes of them, and every clean message
      that starts at least limit + 6 bytes later is received; every one of them is when the
      reader was looking for a preamble. */
  lemma Resynchronises(g: seq<byte>, ms: seq<Message>, limit: nat) returns (junk: seq<Event>, j: nat)
    requires AllSendable(ms, limit) && AllClean(ms)
    ensures |junk| <= 1 && j <= |ms|
    ensures Parse(g + EncodeAll(ms), limit).events == Parse(g, limit).events + (junk + AllGood(ms[j..]))
    ensures j > 0 ==> Offset(ms, j - 1) < HEADER + limit
    ensures |Parse(g, limit).rest| <= 1 ==> junk == [] && j == 0
  {
    var e := EncodeAll(ms);
    ParseConcat(g, e, limit);
    var rest := Parse(g, limit).rest;
    if |rest| <= 1 {
      junk, j := [], 0;
      if ms != [] { EncodeAllSplit(ms, limit); }
      QuietIsDropped(rest, e, limit);
      AllReceived(ms, limit);
      assert ms[0..] == ms && junk + AllGood(ms) == AllGood(ms);
    } else {
      junk, j := ResumeBehindCandidate(rest, ms, limit);
    }
  }

  // ---- Without clean messages, reading may never resume ------------------------------------

  const ECHO: Message := Message(CLASS_NAV, ID_NAV_PVT, [PREAMBLE1, PREAMBLE2, 0, 0, 8, 0, 0, 0])

  function Repeat(m: Message, n: nat): (ms: seq<Message>)
    ensures |ms| == n && forall x :: x in ms ==> x == m
  {
    if n == 0 then [] else [m] + Repeat(m, n - 1)
  }

  lemma FoldFour(d: seq<byte>, s: Sums)
    requires |d| == 4
    ensures var p: nat, q: nat, r: nat, t: nat := d[0], d[1], d[2], d[3];
            Fold(d, s) == Sums((s.a + (p + q + r + t)) % 256,
                               (s.b + 4 * s.a + (4 * p + 3 * q + 2 * r + t)) % 256)
  {
    var x, y := [d[0], d[1]], [d[2], d[3]];
    ClosedForm(d, s);
    assert d == x + y;
    SumsConcat(x, y);
    PairSums(d[0], d[1]);
    PairSums(d[2], d[3]);
  }

  lemma FoldThree(x: seq<byte>, y: seq<byte>, z: seq<byte>, s0: Sums, s1: Sums, s2: Sums, s3: Sums)
    requires s1 == Fold(x, s0) && s2 == Fold(y, s1) && s3 == Fold(z, s2)
    ensures Fold(x + y + z, s0) == s3
  {
    FoldConcat(x + y, z, s0);
    FoldConcat(x, y, s0);
  }

  lemma EchoChecksum(x: seq<byte>, y: seq<byte>, z: seq<byte>)
    requires x == [1, 7, 8, 0] && y == [0xB5, 0x62, 0, 0] && z == [8, 0, 0, 0]
    ensures Checksum(x + y + z) == Sums(47, 31)
  {
    var s0, s1, s2, s3 := Sums(0, 0), Sums(16, 41), Sums(39, 99), Sums(47, 31);
    FoldFour(x, s0);
    assert s1 == Fold(x, s0);
    FoldFour(y, s1);
    assert s2 == Fold(y, s1);
    FoldFour(z, s2);
    assert s3 == Fold(z, s2);
    FoldThree(x, y, z, s0, s1, s2, s3);
  }

  lemma WindowChecksum(x: seq<byte>, y: seq<byte>, z: seq<byte>)
    requires x == [0, 0, 8, 0] && y == [0, 0, 47, 31] && z == [0xB5, 0x62, 1, 7]
    ensures Checksum(x + y + z) == Sums(117, 8)
  {
    var s0, s1, s2, s3 := Sums(0, 0), Sums(8, 16), Sums(86, 173), Sums(117, 8);
    FoldFour(x, s0);
    assert s1 == Fold(x, s0);
    FoldFour(y, s1);
    assert s2 == Fold(y, s1);
    FoldFour(z, s2);
    assert s3 == Fold(z, s2);
    FoldThree(x, y, z, s0, s1, s2, s3);
  }

  lemma EchoEncoded(s: seq<byte>)
    requires s == [0xB5, 0x62, 1, 7, 8, 0, 0xB5, 0x62, 0, 0, 8, 0, 0, 0, 47, 31]
    ensures Encode(ECHO) == s
  {
    var x, y, z := s[2..6], s[6..10], s[10..14];
    EchoChecksum(x, y, z);
    assert Body(ECHO) == x + y + z;
  }

  lemma WindowIsBad(w: seq<byte>, t: seq<byte>, limit: nat)
    requires w == [0xB5, 0x62, 0, 0, 8, 0, 0, 0, 47, 31, 0xB5, 0x62, 1, 7, 8, 0] && limit >= 8
    ensures Candidate(w + t, limit) == Take(|w|, BadChecksum)
  {
    var x, y, z := w[2..6], w[6..10], w[10..14];
    WindowChecksum(x, y, z);
    assert w[2..14] == x + y + z && w[..16] == w;
    assert PayloadLength(w) == 8;
    CandidateExtends(w, t, limit);
  }

  function Bad(n: nat): (es: seq<Event>) {
    seq(n, _ => BadChecksum)
  }

  lemma EchoWindow(w: seq<byte>, t: seq<byte>, limit: nat)
    requires w == [0xB5, 0x62, 0, 0, 8, 0, 0, 0, 47, 31, 0xB5, 0x62, 1, 7, 8, 0] && limit >= 8
    ensures Parse(w + t, limit).events == [BadChecksum] + Parse(t, limit).events
  {
    WindowIsBad(w, t, limit);
    ParseTake(w + t, limit);
    assert (w + t)[|w|..] == t;
  }

  lemma EchoCut(s: seq<byte>, limit: nat)
    requires s == [0xB5, 0x62, 0, 0, 8, 0, 0, 0, 47, 31] && limit >= 8
    ensures Parse(s, limit).events == []
  {
    assert PayloadLength(s) == 8;
  }

  lemma EchoStep(s: seq<byte>, d: seq<byte>, limit: nat)
    requires s == [0xB5, 0x62, 1, 7, 8, 0, 0xB5, 0x62, 0, 0, 8, 0, 0, 0, 47, 31] && limit >= 8
    ensures Parse(s[6..] + (s + d), limit).events == [BadChecksum] + Parse(s[6..] + d, limit).events
  {
    var w := [0xB5, 0x62, 0, 0, 8, 0, 0, 0, 47, 31, 0xB5, 0x62, 1, 7, 8, 0];
    assert s[6..] + s[..6] == w;
    assert s[6..] + (s + d) == w + (s[6..] + d);
    EchoWindow(w, s[6..] + d, limit);
  }

  /** Where half a message before it makes one bad candidate of every message, all are lost. */
  lemma {:induction false} EchoLoop(n: nat, m: Message, half: seq<byte>, limit: nat)
    requires |m.payload| < 0x1_0000 && Parse(half, limit).events == []
    requires forall d :: Parse(half + (Encode(m) + d), limit).events == [BadChecksum] + Parse(half + d, limit).events
    ensures Parse(half + EncodeAll(Repeat(m, n)), limit).events == Bad(n)
  {
    if n == 0 {
      assert half + EncodeAll(Repeat(m, n)) == half;
    } else {
      var rest := EncodeAll(Repeat(m, n - 1));
      EchoLoop(n - 1, m, half, limit);
      assert Repeat(m, n)[1..] == Repeat(m, n - 1) && EncodeAll(Repeat(m, n)) == Encode(m) + rest;
      assert Parse(half + (Encode(m) + rest), limit).events == [BadChecksum] + Parse(half + rest, limit).events;
      assert Bad(n) == [BadChecksum] + Bad(n - 1);
    }
  }

  /** Tuned in at the sixth byte of a message that carries a false header, the reader takes every
      message for two half candidates, however many follow. */
  lemma EchoesNeverResume(n: nat, limit: nat)
    requires limit >= 8
    ensures |ECHO.payload| == 8
    ensures Parse(Encode(ECHO)[6..] + EncodeAll(Repeat(ECHO, n)), limit).events == Bad(n)
  {
    var s := [0xB5, 0x62, 1, 7, 8, 0, 0xB5, 0x62, 0, 0, 8, 0, 0, 0, 47, 31];
    EchoEncoded(s);
    EchoCut(s[6..], limit);
    forall d ensures Parse(s[6..] + (s + d), limit).events == [BadChecksum] + Parse(s[6..] + d, limit).events {
      EchoStep(s, d, limit);
    }
    EchoLoop(n, ECHO, s[6..], limit);
  }
}
