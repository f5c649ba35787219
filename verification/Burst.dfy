/** Which damage to a frame the check field finds. Bursts are counted here in the order in which the CRC
    consumes bits; Uart counts them as they are on the line. */
module Burst {
  import opened Bytes
  import opened Framing
  import opened Crc
  import opened SerialLink
  import opened Trailer

  ghost predicate BurstWithin(a: seq<byte>, b: seq<byte>, start: nat, width: nat) {
    |a| == |b| && BurstDiffer(Octets(a), Octets(b), start, width)
  }

  // ---- The division is linear --------------------------------------------------------------

  function Empty(): Register {
    seq(16, _ => false)
  }

  function Xor(u: seq<bool>, v: seq<bool>): (d: seq<bool>)
    requires |u| == |v|
    ensures |d| == |u|
  {
    seq(|u|, i requires 0 <= i < |u| => u[i] != v[i])
  }

  lemma LinearStep(p: Register, q: Register, a: bool, b: bool)
    ensures Divide(Mix(p, q), a != b) == Mix(Divide(p, a), Divide(q, b))
  {
  }

  lemma {:induction false} Linear(p: Register, q: Register, u: seq<bool>, v: seq<bool>)
    requires |u| == |v|
    ensures DivideAll(Mix(p, q), Xor(u, v)) == Mix(DivideAll(p, u), DivideAll(q, v))
    decreases |u|
  {
    if u != [] {
      LinearStep(p, q, u[0], v[0]);
      assert Xor(u, v)[1..] == Xor(u[1..], v[1..]);
      Linear(Divide(p, u[0]), Divide(q, v[0]), u[1..], v[1..]);
    }
  }

  /** What is fed back at each step, and how long ago. */
  function Feedback(d: seq<bool>): (fs: seq<bool>)
    ensures |fs| == |d|
  {
    if d == [] then []
    else
      var n := |d| - 1;
      var r := DivideAll(Empty(), d[..n]);
      Feedback(d[..n]) + [r[0] != d[n]]
  }

  predicate Ago(fs: seq<bool>, s: int) {
    0 <= s < |fs| && fs[|fs| - 1 - s]
  }

  lemma DivideSnoc(r: Register, d: seq<bool>)
    requires d != []
    ensures DivideAll(r, d) == Divide(DivideAll(r, d[..|d| - 1]), d[|d| - 1])
  {
    var n := |d| - 1;
    DivideAllConcat(r, d[..n], [d[n]]);
    assert d == d[..n] + [d[n]] && [d[n]][1..] == [];
  }

  /** From an empty register the remainder is the fed-back bits times the generator. */
  lemma {:induction false} RemainderOf(d: seq<bool>)
    ensures forall i :: 0 <= i < 16 ==>
              DivideAll(Empty(), d)[i] ==
              ((Ago(Feedback(d), 3 - i) != Ago(Feedback(d), 10 - i)) != Ago(Feedback(d), 15 - i))
    decreases |d|
  {
    if d != [] {
      var n := |d| - 1;
      RemainderOf(d[..n]);
      DivideSnoc(Empty(), d);
      forall i | 0 <= i < 16
        ensures DivideAll(Empty(), d)[i] ==
                ((Ago(Feedback(d), 3 - i) != Ago(Feedback(d), 10 - i)) != Ago(Feedback(d), 15 - i))
      {
        RemainderStep(DivideAll(Empty(), d[..n]), d[n], Feedback(d[..n]), Feedback(d), i);
      }
    }
  }

  lemma AgoShifts(fs: seq<bool>, f: bool, s: int)
    ensures Ago(fs + [f], s) == if s == 0 then f else Ago(fs, s - 1)
  {
  }

  lemma RemainderStep(r: Register, bit: bool, fs: seq<bool>, gs: seq<bool>, i: nat)
    requires i < 16 && gs == fs + [r[0] != bit]
    requires forall k :: 0 <= k < 16 ==> r[k] == ((Ago(fs, 3 - k) != Ago(fs, 10 - k)) != Ago(fs, 15 - k))
    ensures Divide(r, bit)[i] == ((Ago(gs, 3 - i) != Ago(gs, 10 - i)) != Ago(gs, 15 - i))
  {
    AgoShifts(fs, r[0] != bit, 3 - i);
    AgoShifts(fs, r[0] != bit, 10 - i);
    AgoShifts(fs, r[0] != bit, 15 - i);
  }

  /** Where nothing is ever fed back, no bit was set. */
  lemma {:induction false} SilentFeedback(d: seq<bool>)
    requires forall s :: 0 <= s < |d| ==> !Ago(Feedback(d), s)
    ensures forall k :: 0 <= k < |d| ==> !d[k]
    decreases |d|
  {
    if d != [] {
      var n := |d| - 1;
      var fs := Feedback(d[..n]);
      forall s | 0 <= s < n ensures !Ago(fs, s) {
        AgoShifts(fs, DivideAll(Empty(), d[..n])[0] != d[n], s + 1);
        assert !Ago(Feedback(d), s + 1);
      }
      SilentFeedback(d[..n]);
      RemainderOf(d[..n]);
      assert !Ago(fs, 3) && !Ago(fs, 10) && !Ago(fs, 15) && !Ago(Feedback(d), 0);
      assert forall k :: 0 <= k < n ==> d[k] == d[..n][k];
    }
  }

  // ---- A burst across body and check field ---------------------------------------------------

  /** Of a change of the check field, only the first b bits of its octets, low one first, are set. */
  predicate OnlyFirst(r: Register, b: nat) {
    forall i :: 0 <= i < 16 && PlaceOf(i) >= b ==> !r[i]
  }

  /** The place of coefficient i there. */
  function PlaceOf(i: nat): nat {
    if i < 8 then i + 8 else i - 8
  }

  /** Where the check field changes by what the last bits of the body do to the remainder, the two
      together span more than twelve bits. */
  lemma TwelveBitsAreTooFew(d: seq<bool>, b: nat)
    requires 1 <= |d| && |d| + b <= 12 && OnlyFirst(DivideAll(Empty(), d), b)
    ensures forall k :: 0 <= k < |d| ==> !d[k]
  {
    RemainderOf(d);
    NothingFedBack(Feedback(d), DivideAll(Empty(), d), b);
    SilentFeedback(d);
  }

  lemma NothingFedBack(fs: seq<bool>, r: Register, b: nat)
    requires 1 <= |fs| && |fs| + b <= 12 && OnlyFirst(r, b)
    requires forall i :: 0 <= i < 16 ==> r[i] == ((Ago(fs, 3 - i) != Ago(fs, 10 - i)) != Ago(fs, 15 - i))
    ensures forall s :: 0 <= s < |fs| ==> !Ago(fs, s)
  {
    assert r[0] == ((Ago(fs, 3) != Ago(fs, 10)) != Ago(fs, 15));
    assert r[1] == ((Ago(fs, 2) != Ago(fs, 9)) != Ago(fs, 14));
    assert r[2] == ((Ago(fs, 1) != Ago(fs, 8)) != Ago(fs, 13));
    assert r[3] == ((Ago(fs, 0) != Ago(fs, 7)) != Ago(fs, 12));
    assert r[4] == (Ago(fs, 6) != Ago(fs, 11));
    assert r[5] == (Ago(fs, 5) != Ago(fs, 10));
    assert r[6] == (Ago(fs, 4) != Ago(fs, 9));
    assert r[7] == (Ago(fs, 3) != Ago(fs, 8));
    assert r[8] == (Ago(fs, 2) != Ago(fs, 7));
    assert r[9] == (Ago(fs, 1) != Ago(fs, 6));
    assert r[10] == (Ago(fs, 0) != Ago(fs, 5));
    assert r[11] == Ago(fs, 4) && r[12] == Ago(fs, 3) && r[13] == Ago(fs, 2);
    assert r[14] == Ago(fs, 1) && r[15] == Ago(fs, 0);
    forall s | 0 <= s < |fs| ensures !Ago(fs, s) {
      assert s == 0 || s == 1 || s == 2 || s == 3 || s == 4 || s == 5 || s == 6 || s == 7 || s == 8 ||
             s == 9 || s == 10 || s == 11;
    }
  }

  lemma {:induction false} BitsConcat(a: seq<octet>, b: seq<octet>)
    ensures Bits(a + b) == Bits(a) + Bits(b)
    decreases |a|
  {
    if a == [] {
      assert a + b == b && Bits(a) == [];
    } else {
      assert (a + b)[1..] == a[1..] + b;
      BitsConcat(a[1..], b);
    }
  }

  /** A check field's bits, low octet first, from the register. */
  function LowHigh(r: Register): (t: seq<bool>)
    ensures |t| == 16
  {
    r[8..] + r[..8]
  }

  lemma SplitAt(x: seq<bool>, y: seq<bool>, start: nat)
    requires |x| == |y| && start <= |x| && forall k :: 0 <= k < start ==> x[k] == y[k]
    ensures x[..start] == y[..start] && x == x[..start] + x[start..] && y == y[..start] + y[start..]
  {
  }

  /** How two remainders differ that part before the last bits. */
  lemma DifferenceOf(seed: Register, x: seq<bool>, y: seq<bool>, start: nat)
    requires |x| == |y| && start <= |x| && forall k :: 0 <= k < start ==> x[k] == y[k]
    ensures Mix(DivideAll(seed, x), DivideAll(seed, y)) == DivideAll(Empty(), Xor(x[start..], y[start..]))
  {
    SplitAt(x, y, start);
    var r := DivideAll(seed, x[..start]);
    DivideAllConcat(seed, x[..start], x[start..]);
    DivideAllConcat(seed, y[..start], y[start..]);
    Linear(r, r, x[start..], y[start..]);
    assert Mix(r, r) == Empty();
  }

  /** Bodies with their own check fields that differ within twelve bits are the same. */
  lemma TwelveBitsDecide(seed: Register, x: seq<bool>, y: seq<bool>, start: nat)
    requires |x| == |y|
    requires Within(x + LowHigh(DivideAll(seed, x)), y + LowHigh(DivideAll(seed, y)), start, 12)
    ensures x == y
  {
    var p, q, n := DivideAll(seed, x), DivideAll(seed, y), |x|;
    forall k | 0 <= k < n && !(start <= k < start + 12) ensures x[k] == y[k] {
      assert (x + LowHigh(p))[k] == (y + LowHigh(q))[k];
    }
    forall i | 0 <= i < 16 && !(start <= n + PlaceOf(i) < start + 12) ensures p[i] == q[i] {
      assert (x + LowHigh(p))[n + PlaceOf(i)] == (y + LowHigh(q))[n + PlaceOf(i)];
    }
    if start + 12 <= n {
      assert p == q;
      BurstBits(seed, x, y, start);
    } else if start < n {
      Straddling(seed, x, y, start);
    }
  }

  lemma Straddling(seed: Register, x: seq<bool>, y: seq<bool>, start: nat)
    requires |x| == |y| && start < |x| < start + 12
    requires forall k :: 0 <= k < start ==> x[k] == y[k]
    requires var p, q := DivideAll(seed, x), DivideAll(seed, y);
             forall i :: 0 <= i < 16 && |x| + PlaceOf(i) >= start + 12 ==> p[i] == q[i]
    ensures x == y
  {
    var d := Xor(x[start..], y[start..]);
    DifferenceOf(seed, x, y, start);
    TwelveBitsAreTooFew(d, start + 12 - |x|);
    forall k | start <= k < |x| ensures x[k] == y[k] {
      assert !d[k - start];
    }
  }

  // ---- Frames ------------------------------------------------------------------------------

  lemma FieldBits(body: seq<byte>)
    ensures var r := DivideAll(RegisterOf(SEED), Bits(Octets(body)));
            Bits(Octets(body + PutLe16(CheckField(body)))) == Bits(Octets(body)) + LowHigh(r)
  {
    Crc16Divides(SEED, Octets(body));
    TrailerBits(RegisterOf(Crc16(SEED, Octets(body))));
    OctetsConcat(body, PutLe16(CheckField(body)));
    BitsConcat(Octets(body), Octets(PutLe16(CheckField(body))));
  }

  /** Bodies whose bits, with the register's halves behind them, differ within twelve are the same. */
  lemma TwelveSame(a: seq<byte>, b: seq<byte>, start: nat, r: Register)
    requires |a| == |b|
    requires var x, y := Bits(Octets(a)), Bits(Octets(b));
             Within(x + LowHigh(DivideAll(r, x)), y + LowHigh(DivideAll(r, y)), start, 12)
    ensures a == b
  {
    TwelveBitsDecide(r, Bits(Octets(a)), Bits(Octets(b)), start);
    SameBits(a, b);
  }

  lemma SameBodies(a: seq<byte>, b: seq<byte>, start: nat)
    requires |a| == |b| && BurstWithin(a + PutLe16(CheckField(a)), b + PutLe16(CheckField(b)), start, 12)
    ensures a == b
  {
    FieldBits(a);
    FieldBits(b);
    TwelveSame(a, b, start, RegisterOf(SEED));
  }

  lemma PutBack(t: seq<byte>)
    requires |t| == 2
    ensures PutLe16(GetLe16(t[0], t[1])) == t
  {
  }

  /** A candidate whose length field is whole is judged by its check field. */
  lemma JudgedByCheck(f: Frame, s: seq<byte>, link: Link)
    requires Sendable(f, link) && |s| == |Encode(f, link)| && s[..4] == Encode(f, link)[..4]
    ensures StartsWithSync(s)
    ensures Judge(s, link) == BadCrc ||
            s == SYNC + s[2..2 + |Body(f)|] + PutLe16(link.check(s[2..2 + |Body(f)|]))
  {
    var e, n := Encode(f, link), |f.payload|;
    EncodedFields(f, link);
    SameStart(s, e);
    assert LengthField(s) == n;
    Reassembled(s, n);
  }

  lemma SameStart(s: seq<byte>, e: seq<byte>)
    requires |s| >= 4 && |e| >= 4 && s[..4] == e[..4]
    ensures s[0] == e[0] && s[1] == e[1] && s[2] == e[2] && s[3] == e[3]
  {
    assert forall k :: 0 <= k < 4 ==> s[k] == s[..4][k] == e[..4][k] == e[k];
  }

  lemma Reassembled(s: seq<byte>, n: nat)
    requires |s| == OVERHEAD + n && s[0] == SYNC0 && s[1] == SYNC1
    ensures s == SYNC + s[2..HEADER_SIZE + n] + PutLe16(GetLe16(s[HEADER_SIZE + n], s[HEADER_SIZE + n + 1]))
  {
    var t := s[HEADER_SIZE + n..];
    PutBack(t);
    assert s == SYNC + s[2..HEADER_SIZE + n] + t;
  }

  /** No burst of up to twelve bits behind the length field, check field included, is taken for a
      frame. */
  lemma FrameBurstIsRejected(f: Frame, s: seq<byte>, start: nat)
    requires Sendable(f, SERIAL) && |s| == |Encode(f, SERIAL)| && s[..4] == Encode(f, SERIAL)[..4]
    requires s != Encode(f, SERIAL) && BurstWithin(Encode(f, SERIAL)[2..], s[2..], start, 12)
    ensures StartsWithSync(s) && Judge(s, SERIAL) == BadCrc
  {
    JudgedByCheck(f, s, SERIAL);
    if Judge(s, SERIAL) != BadCrc {
      var a, b := Body(f), s[2..2 + |Body(f)|];
      EncodeTail(f);
      assert s[2..] == b + PutLe16(CheckField(b));
      SameBodies(a, b, start);
    }
  }

  /** Inside the body up to sixteen bits are found. */
  lemma BodyBurstIsRejected(f: Frame, damaged: seq<byte>, start: nat)
    requires Sendable(f, SERIAL) && |damaged| == |Body(f)| && damaged[..2] == Body(f)[..2] && damaged != Body(f)
    requires BurstWithin(damaged, Body(f), start, 16)
    ensures var s := SYNC + damaged + PutLe16(SERIAL.check(Body(f)));
            StartsWithSync(s) && Judge(s, SERIAL) == BadCrc
  {
    BurstChangesCheckField(damaged, Body(f), start);
    DamagedIsRejected(f, damaged, SERIAL);
  }

  // ---- Thirteen bits are enough ------------------------------------------------------------

  lemma FlippedBits(o: octet, i: nat)
    requires i < 8
    ensures OctetBit(o ^ 0x04, i) == (OctetBit(o, i) != (i == 5))
  {
    match i {
      case 0 => case 1 => case 2 => case 3 => case 4 => case 5 => case 6 => case _ =>
    }
  }

  /** A byte with its third lowest bit turned over. */
  lemma Flip(n: byte) returns (m: byte)
    ensures forall i :: 0 <= i < 8 ==> BitsOf(ToOctet(m))[i] == (BitsOf(ToOctet(n))[i] != (i == 5))
  {
    var o := ToOctet(n);
    OctetBack(o ^ 0x04);
    m := (o ^ 0x04) as int;
    forall i | 0 <= i < 8 ensures BitsOf(ToOctet(m))[i] == (BitsOf(o)[i] != (i == 5)) {
      FlippedBits(o, i);
    }
  }

  lemma LastOctetBits(a: seq<byte>, n: byte)
    ensures Bits(Octets(a + [n])) == Bits(Octets(a)) + BitsOf(ToOctet(n))
  {
    OctetsConcat(a, [n]);
    assert Octets([n]) == [ToOctet(n)] && [ToOctet(n)][1..] == [];
    assert Bits([ToOctet(n)]) == BitsOf(ToOctet(n)) + Bits([]);
    BitsConcat(Octets(a), [ToOctet(n)]);
  }

  /** What the third bit from the end does to the remainder. */
  lemma OneBitRemainder(r: Register, d: seq<bool>)
    requires |d| == 3 && d[0] && !d[1] && !d[2] && r == DivideAll(Empty(), d)
    ensures forall i :: 0 <= i < 16 ==> r[i] == (i == 1 || i == 8 || i == 13)
  {
    var r1 := Divide(Empty(), d[0]);
    var r2 := Divide(r1, d[1]);
    assert d[..3] == d && d[..3][..2] == d[..2] && d[..2][..1] == d[..1] && d[..1][..0] == [];
    DivideSnoc(Empty(), d);
    DivideSnoc(Empty(), d[..2]);
    DivideSnoc(Empty(), d[..1]);
    assert r == Divide(r2, d[2]);
    assert forall i :: 0 <= i < 16 ==> r1[i] == Tap(i);
    assert forall i :: 0 <= i < 16 ==> r2[i] == (i < 15 && Tap(i + 1));
  }

  /** Turning that bit over changes body and check field within thirteen bits. */
  lemma ThirteenBits(seed: Register, x: seq<bool>, y: seq<bool>)
    requires ThirdLastDiffers(x, y)
    ensures Within(x + LowHigh(DivideAll(seed, x)), y + LowHigh(DivideAll(seed, y)), |x| - 3, 13)
  {
    var p, q := DivideAll(seed, x), DivideAll(seed, y);
    ThirdRemainder(seed, x, y, p, q);
    SpanThirteen(x, y, p, q);
  }

  lemma ThirdRemainder(seed: Register, x: seq<bool>, y: seq<bool>, p: Register, q: Register)
    requires ThirdLastDiffers(x, y) && p == DivideAll(seed, x) && q == DivideAll(seed, y)
    ensures forall i :: 0 <= i < 16 ==> Mix(p, q)[i] == (i == 1 || i == 8 || i == 13)
  {
    var d := Xor(x[|x| - 3..], y[|x| - 3..]);
    XorOfThird(x, y);
    DifferenceOf(seed, x, y, |x| - 3);
    OneBitRemainder(Mix(p, q), d);
  }

  lemma XorOfThird(x: seq<bool>, y: seq<bool>)
    requires ThirdLastDiffers(x, y)
    ensures var d := Xor(x[|x| - 3..], y[|x| - 3..]);
            |d| == 3 && d[0] && !d[1] && !d[2]
  {
  }

  lemma SpanThirteen(x: seq<bool>, y: seq<bool>, p: Register, q: Register)
    requires ThirdLastDiffers(x, y)
    requires forall i :: 0 <= i < 16 ==> Mix(p, q)[i] == (i == 1 || i == 8 || i == 13)
    ensures Within(x + LowHigh(p), y + LowHigh(q), |x| - 3, 13)
  {
    var n := |x|;
    forall k | 0 <= k < n + 16 && !(n - 3 <= k < n + 10) ensures (x + LowHigh(p))[k] == (y + LowHigh(q))[k] {
      if k >= n + 10 {
        assert Mix(p, q)[k - n - 8] == (p[k - n - 8] != q[k - n - 8]);
      }
    }
  }

  /** Every frame is within a thirteen-bit burst of another that is valid too: twelve is the most that
      is always found. */
  lemma ThirteenBitsPass(f: Frame) returns (g: Frame)
    requires Sendable(f, SERIAL)
    ensures Sendable(g, SERIAL) && g != f && |g.payload| == |f.payload|
    ensures Judge(Encode(g, SERIAL), SERIAL) == Good && Content(Encode(g, SERIAL)) == g
    ensures BurstWithin(Encode(f, SERIAL)[2..], Encode(g, SERIAL)[2..], 8 * |Body(f)| - 3, 13)
  {
    var n := |f.payload| - 1;
    var m := Flip(f.payload[n]);
    g := f.(payload := f.payload[..n] + [m]);
    EncodedIsGood(g, SERIAL);
    FlippedFrames(f, g, m);
  }

  lemma EncodeTail(f: Frame)
    requires Sendable(f, SERIAL)
    ensures Encode(f, SERIAL)[2..] == Body(f) + PutLe16(CheckField(Body(f)))
  {
  }

  lemma FlippedFrames(f: Frame, g: Frame, m: byte)
    requires Sendable(f, SERIAL) && Sendable(g, SERIAL) && g == f.(payload := f.payload[..|f.payload| - 1] + [m])
    requires var n := f.payload[|f.payload| - 1];
             forall i :: 0 <= i < 8 ==> BitsOf(ToOctet(m))[i] == (BitsOf(ToOctet(n))[i] != (i == 5))
    ensures g != f && BurstWithin(Encode(f, SERIAL)[2..], Encode(g, SERIAL)[2..], 8 * |Body(f)| - 3, 13)
  {
    FlippedBody(f, g, m);
    FlippedWithField(Body(f), Body(g));
    EncodeTail(f);
    EncodeTail(g);
  }

  predicate ThirdLastDiffers(x: seq<bool>, y: seq<bool>) {
    |x| == |y| >= 3 && forall k :: 0 <= k < |x| ==> y[k] == (x[k] != (k == |x| - 3))
  }

  lemma FlippedWithField(a: seq<byte>, b: seq<byte>)
    requires |a| == |b| && ThirdLastDiffers(Bits(Octets(a)), Bits(Octets(b)))
    ensures BurstWithin(a + PutLe16(CheckField(a)), b + PutLe16(CheckField(b)), 8 * |a| - 3, 13)
  {
    FieldBits(a);
    FieldBits(b);
    ThirteenBits(RegisterOf(SEED), Bits(Octets(a)), Bits(Octets(b)));
  }

  lemma FlippedBody(f: Frame, g: Frame, m: byte)
    requires Sendable(f, SERIAL) && g == f.(payload := f.payload[..|f.payload| - 1] + [m])
    requires var n := f.payload[|f.payload| - 1];
             forall i :: 0 <= i < 8 ==> BitsOf(ToOctet(m))[i] == (BitsOf(ToOctet(n))[i] != (i == 5))
    ensures |Body(f)| == |Body(g)| && ThirdLastDiffers(Bits(Octets(Body(f))), Bits(Octets(Body(g))))
    ensures g != f
  {
    var a := Body(f)[..|Body(f)| - 1];
    assert Body(f) == a + [f.payload[|f.payload| - 1]];
    assert Body(g) == a + [m];
    LastOctetBits(a, f.payload[|f.payload| - 1]);
    LastOctetBits(a, m);
    var x, y := Bits(Octets(Body(f))), Bits(Octets(Body(g)));
    assert y[|x| - 3] != x[|x| - 3];
  }
}
