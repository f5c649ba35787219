/** Bursts on the actual line, where a UART at 8N1 sends each byte's least significant bit first. Data bits
    are counted, start and stop bits are not. */
module Uart {
  import opened Bytes
  import opened Framing
  import opened Crc
  import opened SerialLink
  import opened Trailer
  import opened Burst

  // ---- The order of bits -------------------------------------------------------------------

  /** The k lowest binary digits, least significant first. */
  function LowFirst(n: nat, k: nat): (d: seq<bool>)
    ensures |d| == k
  {
    if k == 0 then [] else [n % 2 == 1] + LowFirst(n / 2, k - 1)
  }

  function UartBits(data: seq<byte>): (d: seq<bool>)
    ensures |d| == 8 * |data|
  {
    if data == [] then [] else LowFirst(data[0], 8) + UartBits(data[1..])
  }

  ghost predicate UartBurst(a: seq<byte>, b: seq<byte>, start: nat, width: nat) {
    |a| == |b| && Within(UartBits(a), UartBits(b), start, width)
  }

  /** The place on the line of the bit the CRC consumes k-th, and the other way round. */
  function Turn(k: nat): nat {
    k / 8 * 8 + 7 - k % 8
  }

  /** The same of bits in the CRC's order. */
  ghost predicate Turned(x: seq<bool>, y: seq<bool>, start: nat, width: nat) {
    |x| == |y| && forall k :: 0 <= k < |x| && !(start <= Turn(k) < start + width) ==> x[k] == y[k]
  }

  lemma {:induction false} LowFirstDigits(n: nat, k: nat, i: nat)
    requires i < k
    ensures LowFirst(n, k)[i] == Digits(n, k)[k - 1 - i]
    decreases k
  {
    if i > 0 {
      LowFirstDigits(n / 2, k - 1, i - 1);
    }
  }

  lemma {:induction false} TurnedBit(data: seq<byte>, k: nat)
    requires k < 8 * |data|
    ensures Turn(k) < 8 * |data| && UartBits(data)[Turn(k)] == Bits(Octets(data))[k]
    decreases |data|
  {
    FirstOctets(data);
    TurnSmall(k);
    if k < 8 {
      OctetDigits(data[0]);
      LowFirstDigits(data[0], 8, 7 - k);
    } else {
      TurnedBit(data[1..], k - 8);
      TurnIn(8, k - 8);
    }
  }

  lemma FirstOctets(data: seq<byte>)
    requires data != []
    ensures Bits(Octets(data)) == BitsOf(ToOctet(data[0])) + Bits(Octets(data[1..]))
  {
    assert Octets(data)[0] == ToOctet(data[0]) && Octets(data)[1..] == Octets(data[1..]);
  }

  lemma BurstIsTurned(a: seq<byte>, b: seq<byte>, start: nat, width: nat)
    requires UartBurst(a, b, start, width)
    ensures Turned(Bits(Octets(a)), Bits(Octets(b)), start, width)
  {
    forall k | 0 <= k < 8 * |a| && !(start <= Turn(k) < start + width)
      ensures Bits(Octets(a))[k] == Bits(Octets(b))[k]
    {
      TurnedBit(a, k);
      TurnedBit(b, k);
    }
  }

  lemma TurnTwice(k: nat)
    ensures Turn(Turn(k)) == k
  {
  }

  lemma TurnedIsBurst(a: seq<byte>, b: seq<byte>, start: nat, width: nat)
    requires |a| == |b| && Turned(Bits(Octets(a)), Bits(Octets(b)), start, width)
    ensures UartBurst(a, b, start, width)
  {
    forall k: nat | k < 8 * |a| && !(start <= k < start + width) ensures UartBits(a)[k] == UartBits(b)[k] {
      TurnTwice(k);
      Inside(k, |a|);
      TurnedBit(a, Turn(k));
      TurnedBit(b, Turn(k));
    }
  }

  lemma Inside(k: nat, n: nat)
    requires k < 8 * n
    ensures Turn(k) < 8 * n
  {
  }

  // ---- Bits by what was fed back -----------------------------------------------------------

  predicate Fed(fs: seq<bool>, k: int) {
    0 <= k < |fs| && fs[k]
  }

  lemma {:induction false} FeedbackPrefix(d: seq<bool>, k: nat)
    requires k <= |d|
    ensures Feedback(d[..k]) == Feedback(d)[..k]
    decreases |d|
  {
    if k == |d| {
      assert d[..k] == d;
    } else {
      FeedbackPrefix(d[..|d| - 1], k);
      assert d[..|d| - 1][..k] == d[..k];
    }
  }

  /** Remainders in terms of it. */
  ghost predicate ByFeedback(r: Register, fs: seq<bool>) {
    forall i :: 0 <= i < 16 ==> r[i] == ((Ago(fs, 3 - i) != Ago(fs, 10 - i)) != Ago(fs, 15 - i))
  }

  lemma BitStep(r: Register, fs: seq<bool>, gs: seq<bool>, bit: bool, k: nat)
    requires ByFeedback(r, fs) && |fs| == k && gs == fs + [r[0] != bit]
    ensures bit == (((Fed(gs, k) != Fed(gs, k - 4)) != Fed(gs, k - 11)) != Fed(gs, k - 16))
  {
    assert r[0] == ((Ago(fs, 3 - 0) != Ago(fs, 10 - 0)) != Ago(fs, 15 - 0));
  }

  lemma FedBefore(fs: seq<bool>, j: nat, k: int)
    requires j <= |fs| && k < j
    ensures Fed(fs[..j], k) == Fed(fs, k)
  {
  }

  lemma LastFed(d: seq<bool>)
    requires d != []
    ensures var n := |d| - 1;
            Feedback(d) == Feedback(d[..n]) + [DivideAll(Empty(), d[..n])[0] != d[n]]
  {
  }

  lemma BitOf(d: seq<bool>, k: nat)
    requires k < |d|
    ensures var fs := Feedback(d);
            d[k] == (((Fed(fs, k) != Fed(fs, k - 4)) != Fed(fs, k - 11)) != Fed(fs, k - 16))
  {
    var fs, v := Feedback(d), d[..k + 1];
    FeedbackPrefix(d, k + 1);
    LastFed(v);
    RemainderOf(v[..k]);
    BitStep(DivideAll(Empty(), v[..k]), Feedback(v[..k]), Feedback(v), v[k], k);
    FedBefore(fs, k + 1, k);
    FedBefore(fs, k + 1, k - 4);
    FedBefore(fs, k + 1, k - 11);
    FedBefore(fs, k + 1, k - 16);
  }

  lemma RemainderBit(r: Register, fs: seq<bool>, i: nat)
    requires ByFeedback(r, fs) && i < 16
    ensures var n := |fs|;
            r[i] == ((Fed(fs, n - 4 + i) != Fed(fs, n - 11 + i)) != Fed(fs, n - 16 + i))
  {
  }

  lemma RemainderFed(d: seq<bool>)
    ensures ByFeedback(DivideAll(Empty(), d), Feedback(d))
  {
    RemainderOf(d);
  }

  lemma NothingFed(d: seq<bool>)
    requires forall k :: 0 <= k < |d| ==> !Feedback(d)[k]
    ensures forall k :: 0 <= k < |d| ==> !d[k]
  {
    SilentFeedback(d);
  }

  // ---- Bursts in the body ------------------------------------------------------------------

  /** Of three octets only the last a bits of the first are certain to be right, and all but as many of
      the third: sixteen bits on the line that start a bits into an octet. */
  predicate SixteenFrom(d: seq<bool>, a: nat) {
    |d| == 24 && a < 8 &&
    (forall k :: 8 - a <= k < 8 ==> !d[k]) && (forall k :: 16 <= k < 24 - a ==> !d[k])
  }

  lemma NoneAtEnd(r: Register, fs: seq<bool>, k: nat)
    requires ByFeedback(r, fs) && |fs| == 24 && (forall i :: 0 <= i < 16 ==> !r[i]) && 8 <= k < 24
    ensures !fs[k]
    decreases 24 - k
  {
    RemainderBit(r, fs, k - 8);
    if k + 5 < 24 { NoneAtEnd(r, fs, k + 5); }
    if k + 12 < 24 { NoneAtEnd(r, fs, k + 12); }
  }

  predicate OnlyEight(fs: seq<bool>) {
    |fs| == 24 && forall k :: 8 <= k < 24 ==> !fs[k]
  }

  /** What the first eight fed-back bits make of the first and the third octet. */
  lemma FirstOctet(d: seq<bool>, fs: seq<bool>, k: nat)
    requires |d| == 24 && fs == Feedback(d) && OnlyEight(fs) && k < 8
    ensures d[k] == (fs[k] != (k >= 4 && fs[k - 4]))
    ensures d[16 + k] == (fs[k] != (k < 3 && fs[k + 5]))
  {
    BitOf(d, k);
    BitOf(d, 16 + k);
  }

  lemma SixteenSolve(d: seq<bool>, fs: seq<bool>, a: nat)
    requires fs == Feedback(d) && OnlyEight(fs) && SixteenFrom(d, a)
    ensures forall k :: 0 <= k < 24 ==> !fs[k]
  {
    FirstOctet(d, fs, 0);
    FirstOctet(d, fs, 1);
    FirstOctet(d, fs, 2);
    FirstOctet(d, fs, 3);
    FirstOctet(d, fs, 4);
    FirstOctet(d, fs, 5);
    FirstOctet(d, fs, 6);
    FirstOctet(d, fs, 7);
  }

  lemma SixteenAreTooFew(d: seq<bool>, a: nat)
    requires SixteenFrom(d, a) && forall i :: 0 <= i < 16 ==> !DivideAll(Empty(), d)[i]
    ensures forall k :: 0 <= k < 24 ==> !d[k]
  {
    var fs := Feedback(d);
    RemainderFed(d);
    forall k | 8 <= k < 24 ensures !fs[k] {
      NoneAtEnd(DivideAll(Empty(), d), fs, k);
    }
    SixteenSolve(d, fs, a);
    NothingFed(d);
  }

  lemma TurnIn(lo: nat, k: nat)
    requires lo % 8 == 0
    ensures Turn(lo + k) == lo + Turn(k)
  {
  }

  lemma TurnSmall(k: nat)
    ensures k < 8 ==> Turn(k) == 7 - k
    ensures 8 <= k < 16 ==> Turn(k) == 23 - k
    ensures 16 <= k < 24 ==> Turn(k) == 39 - k
  {
  }

  lemma TurnStays(k: nat, m: nat)
    requires m % 8 == 0
    ensures k < m <==> Turn(k) < m
  {
  }

  /** Outside the octets the burst touches nothing changes. */
  lemma SameOutside(x: seq<bool>, y: seq<bool>, start: nat, lo: nat, hi: nat, k: nat)
    requires Turned(x, y, start, 16) && lo % 8 == 0 && hi % 8 == 0 && lo <= start && start + 16 <= hi
    requires k < |x| && (k < lo || hi <= k)
    ensures x[k] == y[k]
  {
    TurnStays(k, lo);
    TurnStays(k, hi);
  }

  lemma SixteenBetween(x: seq<bool>, y: seq<bool>, start: nat, lo: nat, d: seq<bool>)
    requires Turned(x, y, start, 16) && lo % 8 == 0 && lo <= start < lo + 8 && lo + 24 <= |x|
    requires d == Xor(x[lo..lo + 24], y[lo..lo + 24])
    ensures SixteenFrom(d, start - lo)
  {
    var a := start - lo;
    forall k | 0 <= k < 24 && (8 - a <= k < 8 || 16 <= k < 24 - a) ensures !d[k] {
      TurnIn(lo, k);
      TurnSmall(k);
      assert x[lo + k] == y[lo + k];
    }
  }

  lemma SameRemainder(seed: Register, x: seq<bool>, y: seq<bool>, hi: nat)
    requires |x| == |y| && hi <= |x| && x[hi..] == y[hi..] && DivideAll(seed, x) == DivideAll(seed, y)
    ensures DivideAll(seed, x[..hi]) == DivideAll(seed, y[..hi])
  {
    assert x == x[..hi] + x[hi..] && y == y[..hi] + y[hi..];
    DivideAllConcat(seed, x[..hi], x[hi..]);
    DivideAllConcat(seed, y[..hi], y[hi..]);
    RegisterDecided(DivideAll(seed, x[..hi]), DivideAll(seed, y[..hi]), x[hi..]);
  }

  lemma SixteenInside(seed: Register, x: seq<bool>, y: seq<bool>, start: nat, lo: nat)
    requires Turned(x, y, start, 16) && DivideAll(seed, x) == DivideAll(seed, y)
    requires lo % 8 == 0 && lo <= start < lo + 8 && lo + 24 <= |x|
    ensures x == y
  {
    var hi := lo + 24;
    forall k | 0 <= k < |x| && (k < lo || hi <= k) ensures x[k] == y[k] {
      SameOutside(x, y, start, lo, hi, k);
    }
    SameRemainder(seed, x, y, hi);
    var u, v, d := x[..hi], y[..hi], Xor(x[lo..hi], y[lo..hi]);
    DifferenceOf(seed, u, v, lo);
    assert u[lo..] == x[lo..hi] && v[lo..] == y[lo..hi];
    SixteenBetween(x, y, start, lo, d);
    SixteenAreTooFew(d, start - lo);
    SameBetween(x, y, lo, hi, d);
  }

  lemma SameBetween(x: seq<bool>, y: seq<bool>, lo: nat, hi: nat, d: seq<bool>)
    requires |x| == |y| && lo <= hi <= |x| && d == Xor(x[lo..hi], y[lo..hi]) && forall k :: 0 <= k < hi - lo ==> !d[k]
    requires forall k :: 0 <= k < |x| && (k < lo || hi <= k) ==> x[k] == y[k]
    ensures x == y
  {
    forall k | lo <= k < hi ensures x[k] == y[k] {
      assert !d[k - lo];
    }
  }

  lemma OctetOf(start: nat, n: nat) returns (lo: nat)
    requires n % 8 == 0
    ensures lo % 8 == 0 && lo <= start < lo + 8 && (n <= lo + 16 || lo + 24 <= n)
  {
    lo := start / 8 * 8;
  }

  /** Messages of whole octets with the same remainder that differ within sixteen bits on the line are the
      same. */
  lemma SixteenDecide(seed: Register, x: seq<bool>, y: seq<bool>, start: nat)
    requires Turned(x, y, start, 16) && |x| % 8 == 0 && DivideAll(seed, x) == DivideAll(seed, y)
    ensures x == y
  {
    var lo := OctetOf(start, |x|);
    if |x| <= lo + 16 {
      forall k | 0 <= k < |x| && !(lo <= k < lo + 16) ensures x[k] == y[k] {
        SameOutside(x, y, start, lo, lo + 24, k);
      }
      BurstBits(seed, x, y, lo);
    } else {
      SixteenInside(seed, x, y, start, lo);
    }
  }

  // ---- Bursts across body and check field --------------------------------------------------

  /** The last p bits on the line of two octets, and what they do to the check field: it changes only in
      the first 14 - p bits on the line. */
  predicate FourteenAcross(d: seq<bool>, r: Register, p: nat) {
    |d| == 16 && 1 <= p <= 13 &&
    (forall k :: 0 <= k < 8 && k + 8 >= p ==> !d[k]) && (forall k :: 8 <= k < 16 && k - 8 >= p ==> !d[k]) &&
    (forall i :: 0 <= i < 16 && i < p + 2 ==> !r[i])
  }

  lemma TwoOctets(d: seq<bool>, r: Register, fs: seq<bool>, k: nat)
    requires |d| == 16 && fs == Feedback(d) && ByFeedback(r, fs) && k < 16
    ensures d[k] == ((fs[k] != (k >= 4 && fs[k - 4])) != (k >= 11 && fs[k - 11]))
    ensures r[k] == (((k < 4 && fs[k + 12]) != (k < 11 && fs[k + 5])) != fs[k])
  {
    BitOf(d, k);
    RemainderBit(r, fs, k);
  }

  lemma FourteenSolve(d: seq<bool>, r: Register, fs: seq<bool>, p: nat)
    requires fs == Feedback(d) && ByFeedback(r, fs) && FourteenAcross(d, r, p)
    ensures forall k :: 0 <= k < 16 ==> !fs[k]
  {
    TwoOctets(d, r, fs, 0);
    TwoOctets(d, r, fs, 1);
    TwoOctets(d, r, fs, 2);
    TwoOctets(d, r, fs, 3);
    TwoOctets(d, r, fs, 4);
    TwoOctets(d, r, fs, 5);
    TwoOctets(d, r, fs, 6);
    TwoOctets(d, r, fs, 7);
    TwoOctets(d, r, fs, 8);
    TwoOctets(d, r, fs, 9);
    TwoOctets(d, r, fs, 10);
    TwoOctets(d, r, fs, 11);
    TwoOctets(d, r, fs, 12);
    TwoOctets(d, r, fs, 13);
    TwoOctets(d, r, fs, 14);
    TwoOctets(d, r, fs, 15);
  }

  lemma FourteenAreTooFew(d: seq<bool>, r: Register, p: nat)
    requires FourteenAcross(d, r, p) && ByFeedback(r, Feedback(d))
    ensures forall k :: 0 <= k < 16 ==> !d[k]
  {
    FourteenSolve(d, r, Feedback(d), p);
    NothingFed(d);
  }

  lemma AcrossFrom(x: seq<bool>, y: seq<bool>, p: Register, q: Register, start: nat, d: seq<bool>, r: Register)
    requires |x| == |y| && |x| % 8 == 0 && 16 <= |x| && start < |x| < start + 14
    requires forall k :: 0 <= k < |x| && Turn(k) < start ==> x[k] == y[k]
    requires forall i :: 0 <= i < 16 && |x| + 15 - i >= start + 14 ==> p[i] == q[i]
    requires d == Xor(x[|x| - 16..], y[|x| - 16..]) && r == Mix(p, q)
    ensures FourteenAcross(d, r, |x| - start)
    ensures forall k :: 0 <= k < |x| - 16 ==> x[k] == y[k]
  {
    var lo := |x| - 16;
    forall k | 0 <= k < lo ensures x[k] == y[k] {
      TurnStays(k, lo);
    }
    forall k | 0 <= k < 16 && (if k < 8 then k + 8 >= |x| - start else k - 8 >= |x| - start) ensures !d[k] {
      TurnIn(lo, k);
      TurnSmall(k);
      assert x[lo + k] == y[lo + k];
    }
  }

  lemma Across(seed: Register, x: seq<bool>, y: seq<bool>, p: Register, q: Register, start: nat)
    requires p == DivideAll(seed, x) && q == DivideAll(seed, y)
    requires |x| == |y| && |x| % 8 == 0 && 16 <= |x| && start < |x| < start + 14
    requires forall k :: 0 <= k < |x| && Turn(k) < start ==> x[k] == y[k]
    requires forall i :: 0 <= i < 16 && |x| + 15 - i >= start + 14 ==> p[i] == q[i]
    ensures x == y
  {
    var lo := |x| - 16;
    var d, r := Xor(x[lo..], y[lo..]), Mix(p, q);
    AcrossFrom(x, y, p, q, start, d, r);
    DifferenceOf(seed, x, y, lo);
    RemainderFed(d);
    FourteenAreTooFew(d, r, |x| - start);
    forall k | lo <= k < |x| ensures x[k] == y[k] {
      assert !d[k - lo];
    }
  }

  lemma FieldPlace(x: seq<bool>, y: seq<bool>, p: Register, q: Register, start: nat, width: nat, i: nat)
    requires |x| == |y| && |x| % 8 == 0 && i < 16 && Turned(x + LowHigh(p), y + LowHigh(q), start, width)
    requires !(start <= |x| + 15 - i < start + width)
    ensures p[i] == q[i]
  {
    var j := if i < 8 then i + 8 else i - 8;
    TurnIn(|x|, j);
    TurnSmall(j);
    assert (x + LowHigh(p))[|x| + j] == (y + LowHigh(q))[|x| + j];
  }

  lemma BodyPlace(x: seq<bool>, y: seq<bool>, p: Register, q: Register, start: nat, width: nat, k: nat)
    requires |x| == |y| && k < |x| && Turned(x + LowHigh(p), y + LowHigh(q), start, width)
    requires !(start <= Turn(k) < start + width)
    ensures x[k] == y[k]
  {
    assert (x + LowHigh(p))[k] == (y + LowHigh(q))[k];
  }

  /** Bodies with their own check fields that differ within fourteen bits on the line are the same. */
  lemma FourteenDecide(seed: Register, x: seq<bool>, y: seq<bool>, p: Register, q: Register, start: nat)
    requires |x| == |y| && |x| % 8 == 0 && 16 <= |x| && p == DivideAll(seed, x) && q == DivideAll(seed, y)
    requires Turned(x + LowHigh(p), y + LowHigh(q), start, 14)
    ensures x == y
  {
    forall k | 0 <= k < |x| && !(start <= Turn(k) < start + 14) ensures x[k] == y[k] {
      BodyPlace(x, y, p, q, start, 14, k);
    }
    forall i | 0 <= i < 16 && !(start <= |x| + 15 - i < start + 14) ensures p[i] == q[i] {
      FieldPlace(x, y, p, q, start, 14, i);
    }
    if start + 14 <= |x| {
      assert p == q;
      SixteenDecide(seed, x, y, start);
    } else if start < |x| {
      Across(seed, x, y, p, q, start);
    } else {
      AllBefore(x, y, start);
    }
  }

  lemma AllBefore(x: seq<bool>, y: seq<bool>, start: nat)
    requires |x| == |y| && |x| % 8 == 0 && start >= |x|
    requires forall k :: 0 <= k < |x| && Turn(k) < start ==> x[k] == y[k]
    ensures x == y
  {
    forall k | 0 <= k < |x| ensures x[k] == y[k] {
      TurnStays(k, |x|);
    }
  }

  // ---- Frames ------------------------------------------------------------------------------

  /** Inside the body every burst of up to sixteen bits on the line is found. */
  lemma BodyBurstIsFound(f: Frame, damaged: seq<byte>, start: nat)
    requires Sendable(f, SERIAL) && |damaged| == |Body(f)| && damaged[..2] == Body(f)[..2] && damaged != Body(f)
    requires UartBurst(damaged, Body(f), start, 16)
    ensures var s := SYNC + damaged + PutLe16(SERIAL.check(Body(f)));
            StartsWithSync(s) && Judge(s, SERIAL) == BadCrc
  {
    if CheckField(damaged) == CheckField(Body(f)) {
      SameFieldSameBody(damaged, Body(f), start);
    }
    DamagedIsRejected(f, damaged, SERIAL);
  }

  lemma SameFieldSameBody(a: seq<byte>, b: seq<byte>, start: nat)
    requires UartBurst(a, b, start, 16) && CheckField(a) == CheckField(b)
    ensures a == b
  {
    SameField(a, b);
    SixteenSame(a, b, start, RegisterOf(SEED));
  }

  lemma SixteenSame(a: seq<byte>, b: seq<byte>, start: nat, r: Register)
    requires UartBurst(a, b, start, 16) && DivideAll(r, Bits(Octets(a))) == DivideAll(r, Bits(Octets(b)))
    ensures a == b
  {
    BurstIsTurned(a, b, start, 16);
    SixteenDecide(r, Bits(Octets(a)), Bits(Octets(b)), start);
    SameBits(a, b);
  }

  lemma WithFields(a: seq<byte>, b: seq<byte>, start: nat, width: nat, r: Register)
    requires |a| == |b| && UartBurst(a + PutLe16(CheckField(a)), b + PutLe16(CheckField(b)), start, width)
    requires r == RegisterOf(SEED)
    ensures var x, y := Bits(Octets(a)), Bits(Octets(b));
            Turned(x + LowHigh(DivideAll(r, x)), y + LowHigh(DivideAll(r, y)), start, width)
  {
    FieldBits(a);
    FieldBits(b);
    BurstIsTurned(a + PutLe16(CheckField(a)), b + PutLe16(CheckField(b)), start, width);
  }

  lemma SameFrames(a: seq<byte>, b: seq<byte>, start: nat)
    requires |a| == |b| >= 2 && UartBurst(a + PutLe16(CheckField(a)), b + PutLe16(CheckField(b)), start, 14)
    ensures a == b
  {
    WithFields(a, b, start, 14, RegisterOf(SEED));
    FourteenSame(a, b, start, RegisterOf(SEED));
  }

  lemma FourteenSame(a: seq<byte>, b: seq<byte>, start: nat, r: Register)
    requires |a| == |b| >= 2
    requires var x, y := Bits(Octets(a)), Bits(Octets(b));
             Turned(x + LowHigh(DivideAll(r, x)), y + LowHigh(DivideAll(r, y)), start, 14)
    ensures a == b
  {
    var x, y := Bits(Octets(a)), Bits(Octets(b));
    FourteenDecide(r, x, y, DivideAll(r, x), DivideAll(r, y), start);
    SameBits(a, b);
  }

  /** Behind the length field, check field included, every burst of up to fourteen bits on the line is. */
  lemma FrameBurstIsFound(f: Frame, s: seq<byte>, start: nat)
    requires Sendable(f, SERIAL) && |s| == |Encode(f, SERIAL)| && s[..4] == Encode(f, SERIAL)[..4]
    requires s != Encode(f, SERIAL) && UartBurst(Encode(f, SERIAL)[2..], s[2..], start, 14)
    ensures StartsWithSync(s) && Judge(s, SERIAL) == BadCrc
  {
    JudgedByCheck(f, s, SERIAL);
    EncodeTail(f);
    if Judge(s, SERIAL) != BadCrc {
      OwnField(s, s[2..2 + |Body(f)|]);
      SameFrames(Body(f), s[2..2 + |Body(f)|], start);
    }
  }

  lemma OwnField(s: seq<byte>, b: seq<byte>)
    requires s == SYNC + b + PutLe16(CheckField(b))
    ensures s[2..] == b + PutLe16(CheckField(b))
  {
  }

  // ---- Fifteen bits are enough -------------------------------------------------------------

  predicate IsFlipped(i: int) {
    i == 0 || i == 3 || i == 4
  }

  lemma FlippedThree(o: octet, i: nat)
    requires i < 8
    ensures OctetBit(o ^ 0x98, i) == (OctetBit(o, i) != IsFlipped(i))
  {
    match i {
      case 0 => case 1 => case 2 => case 3 => case 4 => case 5 => case 6 => case _ =>
    }
  }

  lemma FlipThree(n: byte) returns (m: byte)
    ensures forall i :: 0 <= i < 8 ==> BitsOf(ToOctet(m))[i] == (BitsOf(ToOctet(n))[i] != IsFlipped(i))
  {
    var o := ToOctet(n);
    OctetBack(o ^ 0x98);
    m := (o ^ 0x98) as int;
    forall i | 0 <= i < 8 ensures BitsOf(ToOctet(m))[i] == (BitsOf(o)[i] != IsFlipped(i)) {
      FlippedThree(o, i);
    }
  }

  lemma FlippedFeedback(d: seq<bool>, fs: seq<bool>)
    requires |d| == 8 && fs == Feedback(d) && forall i :: 0 <= i < 8 ==> d[i] == IsFlipped(i)
    ensures fs[0] && !fs[1] && !fs[2] && fs[3] && !fs[4] && !fs[5] && !fs[6] && fs[7]
  {
    assert d[0] && !d[1] && !d[2] && d[3] && d[4] && !d[5] && !d[6] && !d[7];
    ExplicitFeedback(d, fs);
  }

  lemma ExplicitFeedback(d: seq<bool>, fs: seq<bool>)
    requires |d| == 8 && fs == Feedback(d)
    requires d[0] && !d[1] && !d[2] && d[3] && d[4] && !d[5] && !d[6] && !d[7]
    ensures fs[0] && !fs[1] && !fs[2] && fs[3] && !fs[4] && !fs[5] && !fs[6] && fs[7]
  {
    OneOctet(d, fs, 0);
    OneOctet(d, fs, 1);
    OneOctet(d, fs, 2);
    OneOctet(d, fs, 3);
    OneOctet(d, fs, 4);
    OneOctet(d, fs, 5);
    OneOctet(d, fs, 6);
    OneOctet(d, fs, 7);
  }

  lemma OneOctet(d: seq<bool>, fs: seq<bool>, k: nat)
    requires |d| == 8 && fs == Feedback(d) && k < 8
    ensures fs[k] == (d[k] != (k >= 4 && fs[k - 4]))
  {
    BitOf(d, k);
  }

  lemma FlippedRemainder(r: Register, fs: seq<bool>, i: nat)
    requires ByFeedback(r, fs) && |fs| == 8 && i < 6
    requires fs[0] && !fs[1] && !fs[2] && fs[3] && !fs[4] && !fs[5] && !fs[6] && fs[7]
    ensures !r[i]
  {
    RemainderBit(r, fs, i);
  }

  predicate LastFlipped(x: seq<bool>, y: seq<bool>) {
    |x| == |y| >= 8 && forall k :: 0 <= k < |x| ==> y[k] == (x[k] != IsFlipped(k - (|x| - 8)))
  }

  lemma FieldBarelyChanges(seed: Register, x: seq<bool>, y: seq<bool>, p: Register, q: Register)
    requires LastFlipped(x, y) && p == DivideAll(seed, x) && q == DivideAll(seed, y)
    ensures forall i :: 0 <= i < 6 ==> p[i] == q[i]
  {
    var lo := |x| - 8;
    var d := Xor(x[lo..], y[lo..]);
    DifferenceOf(seed, x, y, lo);
    RemainderFed(d);
    FlippedFeedback(d, Feedback(d));
    forall i | 0 <= i < 6 ensures p[i] == q[i] {
      FlippedRemainder(Mix(p, q), Feedback(d), i);
    }
  }

  lemma FifteenWide(x: seq<bool>, y: seq<bool>, p: Register, q: Register)
    requires LastFlipped(x, y) && |x| % 8 == 0 && forall i :: 0 <= i < 6 ==> p[i] == q[i]
    ensures Turned(x + LowHigh(p), y + LowHigh(q), |x| - 5, 15)
  {
    var n := |x|;
    forall k | 0 <= k < n + 16 && !(n - 5 <= Turn(k) < n + 10) ensures (x + LowHigh(p))[k] == (y + LowHigh(q))[k] {
      if k < n {
        if k >= n - 8 {
          TurnIn(n - 8, k - (n - 8));
          TurnSmall(k - (n - 8));
        }
      } else {
        TurnIn(n, k - n);
        TurnSmall(k - n);
      }
    }
  }

  lemma FlippedLast(f: Frame, g: Frame, m: byte)
    requires Sendable(f, SERIAL) && g == f.(payload := f.payload[..|f.payload| - 1] + [m])
    requires var n := f.payload[|f.payload| - 1];
             forall i :: 0 <= i < 8 ==> BitsOf(ToOctet(m))[i] == (BitsOf(ToOctet(n))[i] != IsFlipped(i))
    ensures |Body(f)| == |Body(g)| && LastFlipped(Bits(Octets(Body(f))), Bits(Octets(Body(g))))
    ensures g != f
  {
    var a := Body(f)[..|Body(f)| - 1];
    assert Body(f) == a + [f.payload[|f.payload| - 1]];
    assert Body(g) == a + [m];
    LastOctetBits(a, f.payload[|f.payload| - 1]);
    LastOctetBits(a, m);
    var x, y := Bits(Octets(Body(f))), Bits(Octets(Body(g)));
    assert y[|x| - 8] != x[|x| - 8];
  }

  lemma FlippedSpan(r: Register, x: seq<bool>, y: seq<bool>)
    requires LastFlipped(x, y) && |x| % 8 == 0
    ensures Turned(x + LowHigh(DivideAll(r, x)), y + LowHigh(DivideAll(r, y)), |x| - 5, 15)
  {
    FieldBarelyChanges(r, x, y, DivideAll(r, x), DivideAll(r, y));
    FifteenWide(x, y, DivideAll(r, x), DivideAll(r, y));
  }

  lemma BurstWithFields(a: seq<byte>, b: seq<byte>, start: nat, width: nat, r: Register)
    requires |a| == |b| && r == RegisterOf(SEED)
    requires var x, y := Bits(Octets(a)), Bits(Octets(b));
             Turned(x + LowHigh(DivideAll(r, x)), y + LowHigh(DivideAll(r, y)), start, width)
    ensures UartBurst(a + PutLe16(CheckField(a)), b + PutLe16(CheckField(b)), start, width)
  {
    FieldBits(a);
    FieldBits(b);
    TurnedIsBurst(a + PutLe16(CheckField(a)), b + PutLe16(CheckField(b)), start, width);
  }

  lemma FlippedField(a: seq<byte>, b: seq<byte>, r: Register)
    requires |a| == |b| && LastFlipped(Bits(Octets(a)), Bits(Octets(b))) && r == RegisterOf(SEED)
    ensures UartBurst(a + PutLe16(CheckField(a)), b + PutLe16(CheckField(b)), 8 * |a| - 5, 15)
  {
    FlippedSpan(r, Bits(Octets(a)), Bits(Octets(b)));
    BurstWithFields(a, b, 8 * |a| - 5, 15, r);
  }

  /** Every frame is within fifteen bits on the line of another that is valid too: fourteen is the most
      that is always found. */
  lemma FifteenBitsPass(f: Frame) returns (g: Frame)
    requires Sendable(f, SERIAL)
    ensures Sendable(g, SERIAL) && g != f && |g.payload| == |f.payload|
    ensures Judge(Encode(g, SERIAL), SERIAL) == Good && Content(Encode(g, SERIAL)) == g
    ensures UartBurst(Encode(f, SERIAL)[2..], Encode(g, SERIAL)[2..], 8 * |Body(f)| - 5, 15)
  {
    var n := |f.payload| - 1;
    var m := FlipThree(f.payload[n]);
    g := f.(payload := f.payload[..n] + [m]);
    EncodedIsGood(g, SERIAL);
    FlippedLast(f, g, m);
    FlippedField(Body(f), Body(g), RegisterOf(SEED));
    EncodeTail(f);
    EncodeTail(g);
  }
}
