/** Frames of the downlink's topics on the actual link: a GNSS fix damaged in one byte loses the firmware
    the control-loop metrics behind it. Two bytes of each frame are chosen to bring the CRC to zero, where
    zeros keep it. */
module LostFrame {
  import opened Bytes
  import opened Framing
  import opened Scanner
  import opened Decoder
  import opened Refinement
  import opened SerialLink
  import opened Recovery
  import opened OneByte
  import opened Swallowed
  import Crc
  import Trailer

  // ---- Reading bytes under the CRC ---------------------------------------------------------

  ghost predicate Reads(from: Crc.word, data: seq<byte>, to: Crc.word) {
    Crc.Crc16(from, Crc.Octets(data)) == to
  }

  lemma ReadsOn(from: Crc.word, a: seq<byte>, middle: Crc.word, b: seq<byte>, to: Crc.word)
    requires Reads(from, a, middle) && Reads(middle, b, to)
    ensures Reads(from, a + b, to)
  {
    Crc.OctetsConcat(a, b);
    Crc.Crc16Concat(from, Crc.Octets(a), Crc.Octets(b));
  }

  function Zeros(n: nat): (z: seq<byte>)
    ensures |z| == n && forall i :: 0 <= i < n ==> z[i] == 0
  {
    seq(n, _ => 0)
  }

  lemma {:induction false} ZerosKeepZero(n: nat)
    ensures Reads(0, Zeros(n), 0)
    decreases n
  {
    if n > 0 {
      ZerosKeepZero(n - 1);
      OneZero([0]);
      assert [0] + Zeros(n - 1) == Zeros(n);
      ReadsOn(0, [0], 0, Zeros(n - 1), 0);
    }
  }

  lemma SameOctets(data: seq<byte>, o: seq<Crc.octet>)
    requires |data| == |o| && forall k :: 0 <= k < |data| ==> data[k] == o[k] as int
    ensures Crc.Octets(data) == o
  {
    forall k | 0 <= k < |data| ensures Crc.Octets(data)[k] == o[k] {
      Trailer.OctetBack(o[k]);
    }
  }

  lemma FieldIs(data: seq<byte>, w: Crc.word, n: u16)
    requires Reads(Crc.SEED, data, w) && w as int == n
    ensures SERIAL.check(data) == n
  {
    Trailer.RegisterNumber(w);
  }

  lemma SameFirst(p: Crc.word, q: Crc.word)
    requires Crc.RegisterOf(p) == Crc.RegisterOf(q)
    ensures Crc.CoefficientAt(p, 0) == Crc.CoefficientAt(q, 0)
  {
    assert Crc.RegisterOf(p)[0] == Crc.RegisterOf(q)[0];
  }

  /** Registers that differ never meet again over the same bytes. */
  lemma NeverMeet(p: Crc.word, q: Crc.word, t: seq<byte>)
    requires Crc.CoefficientAt(p, 0) != Crc.CoefficientAt(q, 0)
    ensures Crc.RegisterOf(Crc.Crc16(p, Crc.Octets(t))) != Crc.RegisterOf(Crc.Crc16(q, Crc.Octets(t)))
  {
    var o := Crc.Octets(t);
    Crc.Crc16Divides(p, o);
    Crc.Crc16Divides(q, o);
    if Crc.RegisterOf(Crc.Crc16(p, o)) == Crc.RegisterOf(Crc.Crc16(q, o)) {
      Crc.RegisterDecided(Crc.RegisterOf(p), Crc.RegisterOf(q), Crc.Bits(o));
      SameFirst(p, q);
    }
  }

  /** Behind another front the same bytes do not give the same check field. */
  lemma OtherFront(x: seq<byte>, p: Crc.word, q: Crc.word, t: seq<byte>, w: Crc.word, n: u16)
    requires Reads(Crc.SEED, x, p) && Crc.CoefficientAt(p, 0) != Crc.CoefficientAt(q, 0)
    requires Reads(q, t, w) && w as int == n
    ensures SERIAL.check(x + t) != n
  {
    var v := Crc.Crc16(p, Crc.Octets(t));
    NeverMeet(p, q, t);
    ReadsOn(Crc.SEED, x, p, t, v);
    Trailer.RegisterNumber(w);
    OtherField(x + t, v, Crc.RegisterOf(w));
  }

  lemma OtherField(data: seq<byte>, v: Crc.word, r: Crc.Register)
    requires Reads(Crc.SEED, data, v) && Crc.RegisterOf(v) != r
    ensures SERIAL.check(data) != Crc.FieldOf(r)
  {
    if SERIAL.check(data) == Crc.FieldOf(r) { Crc.FieldDecides(Crc.RegisterOf(v), r); }
  }

  lemma OneZero(data: seq<byte>)
    requires data == [0x00]
    ensures Reads(0x0000, data, 0x0000)
  {
    SameOctets(data, [0x00]);
    OneZeroRegister();
  }

  lemma OneZeroRegister()
    ensures Crc.Crc16(0x0000, [0x00]) == 0x0000
  {
    Crc.OctetCheck(0x0000, 0x00, 0x0000, 0x0000);
  }

  lemma FixFront(data: seq<byte>)
    requires data == [0x40, 0x00, 0x08, 0x00, 0x01, 0x00, 0x53, 0x59, 0x44, 0x00]
    ensures Reads(0xFFFF, data, 0x27E9)
  {
    SameOctets(data, [0x40, 0x00, 0x08, 0x00, 0x01, 0x00, 0x53, 0x59, 0x44, 0x00]);
    FixFrontRegister();
  }

  lemma FixFrontRegister()
    ensures Crc.Crc16(0xFFFF, [0x40, 0x00, 0x08, 0x00, 0x01, 0x00, 0x53, 0x59, 0x44, 0x00]) == 0x27E9
  {
    Crc.OctetCheck(0xFFFF, 0x40, 0x4E9B, 0xA934);
    Crc.OctetCheck(0xA934, 0x00, 0x320A, 0x10C3);
    Crc.OctetCheck(0x10C3, 0x08, 0x9C11, 0x5039);
    Crc.OctetCheck(0x5039, 0x00, 0x5335, 0x63F5);
    Crc.OctetCheck(0x63F5, 0x01, 0x4F96, 0xB9E4);
    Crc.OctetCheck(0xB9E4, 0x00, 0x2F2B, 0xD2F2);
    Crc.OctetCheck(0xD2F2, 0x53, 0x9E28, 0x73A9);
    Crc.OctetCheck(0x73A9, 0x59, 0x8AD2, 0x2C28);
    Crc.OctetCheck(0x2C28, 0x44, 0xE246, 0xC5AE);
    Crc.OctetCheck(0xC5AE, 0x00, 0x9B6C, 0x27E9);
  }

  lemma LongFront(data: seq<byte>)
    requires data == [0x4C, 0x00, 0x08, 0x00, 0x01, 0x00, 0x53, 0x59, 0x44, 0x00]
    ensures Reads(0xFFFF, data, 0xC097)
  {
    SameOctets(data, [0x4C, 0x00, 0x08, 0x00, 0x01, 0x00, 0x53, 0x59, 0x44, 0x00]);
    LongFrontRegister();
  }

  lemma LongFrontRegister()
    ensures Crc.Crc16(0xFFFF, [0x4C, 0x00, 0x08, 0x00, 0x01, 0x00, 0x53, 0x59, 0x44, 0x00]) == 0xC097
  {
    Crc.OctetCheck(0xFFFF, 0x4C, 0x8E9B, 0x68B8);
    Crc.OctetCheck(0x68B8, 0x00, 0xEB46, 0x55AE);
    Crc.OctetCheck(0x55AE, 0x08, 0x8A45, 0x2558);
    Crc.OctetCheck(0x2558, 0x00, 0x75C2, 0x2CC7);
    Crc.OctetCheck(0x2CC7, 0x01, 0xFC32, 0x32CF);
    Crc.OctetCheck(0x32CF, 0x00, 0x1C93, 0xD911);
    Crc.OctetCheck(0xD911, 0x53, 0x2018, 0x21C2);
    Crc.OctetCheck(0x21C2, 0x59, 0xFCC7, 0x3D9F);
    Crc.OctetCheck(0x3D9F, 0x44, 0xE917, 0x70BE);
    Crc.OctetCheck(0x70BE, 0x00, 0x7B07, 0xC097);
  }

  lemma InnerFront(data: seq<byte>)
    requires data == [0x44, 0x00]
    ensures Reads(0xFFFF, data, 0xDC07)
  {
    SameOctets(data, [0x44, 0x00]);
    InnerFrontRegister();
  }

  lemma InnerFrontRegister()
    ensures Crc.Crc16(0xFFFF, [0x44, 0x00]) == 0xDC07
  {
    Crc.OctetCheck(0xFFFF, 0x44, 0x0E9B, 0xE9B0);
    Crc.OctetCheck(0xE9B0, 0x00, 0x7ACE, 0xDC07);
  }

  lemma FixTime(data: seq<byte>)
    requires data == [0x00, 0x00, 0x00, 0x00, 0x58, 0xC3]
    ensures Reads(0x27E9, data, 0x0000)
  {
    SameOctets(data, [0x00, 0x00, 0x00, 0x00, 0x58, 0xC3]);
    FixTimeRegister();
  }

  lemma FixTimeRegister()
    ensures Crc.Crc16(0x27E9, [0x00, 0x00, 0x00, 0x00, 0x58, 0xC3]) == 0x0000
  {
    Crc.OctetCheck(0x27E9, 0x00, 0x5ED2, 0xBD85);
    Crc.OctetCheck(0xBD85, 0x00, 0x693B, 0xF376);
    Crc.OctetCheck(0xF376, 0x00, 0xC68F, 0xA97C);
    Crc.OctetCheck(0xA97C, 0x00, 0x368A, 0x58C3);
    Crc.OctetCheck(0x58C3, 0x58, 0x0C30, 0xC300);
    Crc.OctetCheck(0xC300, 0xC3, 0x0000, 0x0000);
  }

  lemma MetricsAgain(data: seq<byte>)
    requires data == [0x53, 0x59, 0x18, 0x00, 0x1A, 0x00, 0x02, 0x00, 0xC0, 0xE2]
    ensures Reads(0x0000, data, 0x0000)
  {
    SameOctets(data, [0x53, 0x59, 0x18, 0x00, 0x1A, 0x00, 0x02, 0x00, 0xC0, 0xE2]);
    MetricsAgainRegister();
  }

  lemma MetricsAgainRegister()
    ensures Crc.Crc16(0x0000, [0x53, 0x59, 0x18, 0x00, 0x1A, 0x00, 0x02, 0x00, 0xC0, 0xE2]) == 0x0000
  {
    Crc.OctetCheck(0x0000, 0x53, 0x60A5, 0x6A96);
    Crc.OctetCheck(0x6A96, 0x59, 0x0903, 0x9030);
    Crc.OctetCheck(0x9030, 0x18, 0x0208, 0x2080);
    Crc.OctetCheck(0x2080, 0x00, 0x2842, 0xA462);
    Crc.OctetCheck(0xA462, 0x1A, 0x574B, 0x2415);
    Crc.OctetCheck(0x2415, 0x00, 0x6112, 0x71E6);
    Crc.OctetCheck(0x71E6, 0x02, 0x4E87, 0xA8F4);
    Crc.OctetCheck(0xA8F4, 0x00, 0x2E0A, 0xC0E2);
    Crc.OctetCheck(0xC0E2, 0xC0, 0x0E20, 0xE200);
    Crc.OctetCheck(0xE200, 0xE2, 0x0000, 0x0000);
  }

  lemma MetricsFront(data: seq<byte>)
    requires data == [0x18, 0x00, 0x1A, 0x00, 0x02, 0x00, 0xC0, 0xE2, 0x00, 0x00, 0x65, 0x99]
    ensures Reads(0xFFFF, data, 0x0000)
  {
    SameOctets(data, [0x18, 0x00, 0x1A, 0x00, 0x02, 0x00, 0xC0, 0xE2, 0x00, 0x00, 0x65, 0x99]);
    MetricsFrontRegister();
  }

  lemma MetricsFrontRegister()
    ensures Crc.Crc16(0xFFFF, [0x18, 0x00, 0x1A, 0x00, 0x02, 0x00, 0xC0, 0xE2, 0x00, 0x00, 0x65, 0x99]) == 0x0000
  {
    Crc.OctetCheck(0xFFFF, 0x18, 0x9E3E, 0x72C9);
    Crc.OctetCheck(0x72C9, 0x00, 0x5C77, 0x97D5);
    Crc.OctetCheck(0x97D5, 0x1A, 0x5C58, 0x9525);
    Crc.OctetCheck(0x9525, 0x00, 0xC379, 0xF61C);
    Crc.OctetCheck(0xF61C, 0x02, 0xB02F, 0xB39B);
    Crc.OctetCheck(0xB39B, 0x00, 0x88DB, 0x0CB8);
    Crc.OctetCheck(0x0CB8, 0xC0, 0x0A0C, 0xA0C0);
    Crc.OctetCheck(0xA0C0, 0xE2, 0x6C84, 0xA886);
    Crc.OctetCheck(0xA886, 0x00, 0x292A, 0xB2E2);
    Crc.OctetCheck(0xB2E2, 0x00, 0x9F4B, 0x6599);
    Crc.OctetCheck(0x6599, 0x65, 0x0990, 0x9900);
    Crc.OctetCheck(0x9900, 0x99, 0x0000, 0x0000);
  }

  lemma QuietFront(data: seq<byte>)
    requires data == [0x40, 0x00, 0x08, 0x00, 0x01, 0x00, 0xD2, 0xF2]
    ensures Reads(0xFFFF, data, 0x0000)
  {
    SameOctets(data, [0x40, 0x00, 0x08, 0x00, 0x01, 0x00, 0xD2, 0xF2]);
    QuietFrontRegister();
  }

  lemma QuietFrontRegister()
    ensures Crc.Crc16(0xFFFF, [0x40, 0x00, 0x08, 0x00, 0x01, 0x00, 0xD2, 0xF2]) == 0x0000
  {
    Crc.OctetCheck(0xFFFF, 0x40, 0x4E9B, 0xA934);
    Crc.OctetCheck(0xA934, 0x00, 0x320A, 0x10C3);
    Crc.OctetCheck(0x10C3, 0x08, 0x9C11, 0x5039);
    Crc.OctetCheck(0x5039, 0x00, 0x5335, 0x63F5);
    Crc.OctetCheck(0x63F5, 0x01, 0x4F96, 0xB9E4);
    Crc.OctetCheck(0xB9E4, 0x00, 0x2F2B, 0xD2F2);
    Crc.OctetCheck(0xD2F2, 0xD2, 0x0F20, 0xF200);
    Crc.OctetCheck(0xF200, 0xF2, 0x0000, 0x0000);
  }

  lemma PadSent(data: seq<byte>)
    requires data == [0x53, 0x00, 0x59, 0x00, 0x00, 0x00]
    ensures Reads(0x0000, data, 0x3838)
  {
    SameOctets(data, [0x53, 0x00, 0x59, 0x00, 0x00, 0x00]);
    PadSentRegister();
  }

  lemma PadSentRegister()
    ensures Crc.Crc16(0x0000, [0x53, 0x00, 0x59, 0x00, 0x00, 0x00]) == 0x3838
  {
    Crc.OctetCheck(0x0000, 0x53, 0x60A5, 0x6A96);
    Crc.OctetCheck(0x6A96, 0x00, 0xC9A6, 0x5BEC);
    Crc.OctetCheck(0x5BEC, 0x59, 0x2EC0, 0xCC42);
    Crc.OctetCheck(0xCC42, 0x00, 0x05AC, 0x5AC0);
    Crc.OctetCheck(0x5AC0, 0x00, 0xFCA5, 0x3BBF);
    Crc.OctetCheck(0x3BBF, 0x00, 0x8B93, 0x3838);
  }

  lemma PadLost(data: seq<byte>)
    requires data == [0x53, 0x59, 0x00, 0x00, 0x00, 0x38]
    ensures Reads(0x0000, data, 0xB461)
  {
    SameOctets(data, [0x53, 0x59, 0x00, 0x00, 0x00, 0x38]);
    PadLostRegister();
  }

  lemma PadLostRegister()
    ensures Crc.Crc16(0x0000, [0x53, 0x59, 0x00, 0x00, 0x00, 0x38]) == 0xB461
  {
    Crc.OctetCheck(0x0000, 0x53, 0x60A5, 0x6A96);
    Crc.OctetCheck(0x6A96, 0x59, 0x0903, 0x9030);
    Crc.OctetCheck(0x9030, 0x00, 0x9229, 0xB3B9);
    Crc.OctetCheck(0xB3B9, 0x00, 0x8AFB, 0x2EB8);
    Crc.OctetCheck(0x2EB8, 0x00, 0xCBC2, 0x7DAC);
    Crc.OctetCheck(0x7DAC, 0x38, 0x1A44, 0xB461);
  }

  // ---- The frames --------------------------------------------------------------------------

  /** A GNSS fix, topic 8 with 64 bytes, 0x445953 microseconds after the start. */
  function Fix(): Frame {
    Frame(8, 1, SYNC + [0x44, 0x00] + [0x00, 0x00, 0x00, 0x00, 0x58, 0xC3] + Zeros(54))
  }

  /** Control-loop metrics, topic 26 with 24 bytes. */
  function Metrics(): Frame {
    Frame(26, 2, [0xC0, 0xE2, 0x00, 0x00, 0x65, 0x99] + Zeros(18))
  }

  /** A GNSS fix whose padding was not cleared. */
  function Padded(): Frame {
    Frame(8, 1, [0xD2, 0xF2] + Zeros(56) + [0x53, 0x00, 0x59, 0x00, 0x00, 0x00])
  }

  lemma BodyIs(f: Frame, n: u16, top: u16, front: seq<byte>)
    requires |f.payload| == n && f.topicId == top && n < 0x100 && top < 0x100 && front == [n, 0, top, 0, f.seqNo, 0]
    ensures Body(f) == front + f.payload
  {
  }

  /** An encoded frame by its body's check field. */
  lemma EncodedBy(f: Frame, b: seq<byte>, lo: byte, hi: byte, link: Link)
    requires Sendable(f, link) && b == Body(f) && link.check(b) == lo + 256 * hi
    ensures Encode(f, link) == SYNC + (b + [lo, hi])
    ensures SYNC0 !in b && lo != SYNC0 && hi != SYNC0 ==> Tame(f, true, link)
  {
    Trailer.PutHalves(link.check(b), hi, lo);
    assert Encode(f, link) == SYNC + b + [lo, hi];
  }

  lemma TwoZeros(n: nat)
    ensures Zeros(n) + [0, 0] == Zeros(n + 2)
  {
  }

  lemma FixBody(f: Frame, h1: seq<byte>, h2: seq<byte>)
    requires f == Fix() && h1 == [0x40, 0x00, 0x08, 0x00, 0x01, 0x00, 0x53, 0x59, 0x44, 0x00]
    requires h2 == [0x00, 0x00, 0x00, 0x00, 0x58, 0xC3]
    ensures |f.payload| == 64 && Body(f) == h1 + (h2 + Zeros(54))
  {
    BodyIs(f, 64, 8, [0x40, 0x00, 0x08, 0x00, 0x01, 0x00]);
    assert h1 == [0x40, 0x00, 0x08, 0x00, 0x01, 0x00] + (SYNC + [0x44, 0x00]);
  }

  lemma FixEncoded(f: Frame, h1: seq<byte>, h2: seq<byte>)
    requires f == Fix() && h1 == [0x40, 0x00, 0x08, 0x00, 0x01, 0x00, 0x53, 0x59, 0x44, 0x00]
    requires h2 == [0x00, 0x00, 0x00, 0x00, 0x58, 0xC3]
    ensures Sendable(f, SERIAL) && Encode(f, SERIAL) == SYNC + (h1 + (h2 + Zeros(56)))
    ensures Reads(0x27E9, h2 + Zeros(56), 0)
  {
    FixBody(f, h1, h2);
    FixFront(h1);
    FixTime(h2);
    ZerosKeepZero(54);
    ZerosKeepZero(56);
    ReadsOn(0x27E9, h2, 0, Zeros(54), 0);
    ReadsOn(0x27E9, h2, 0, Zeros(56), 0);
    ReadsOn(Crc.SEED, h1, 0x27E9, h2 + Zeros(54), 0);
    FieldIs(h1 + (h2 + Zeros(54)), 0, 0);
    EncodedBy(f, h1 + (h2 + Zeros(54)), 0, 0, SERIAL);
    TwoZeros(54);
    Grouped(h1, h2, Zeros(54), [0, 0]);
  }

  lemma Grouped(a: seq<byte>, b: seq<byte>, c: seq<byte>, d: seq<byte>)
    ensures a + (b + c) + d == a + (b + (c + d))
  {
  }

  lemma MetricsBody(g: Frame, m: seq<byte>)
    requires g == Metrics()
    requires m == [0x18, 0x00, 0x1A, 0x00, 0x02, 0x00, 0xC0, 0xE2, 0x00, 0x00, 0x65, 0x99]
    ensures |g.payload| == 24 && Body(g) == m + Zeros(18)
  {
    BodyIs(g, 24, 26, [0x18, 0x00, 0x1A, 0x00, 0x02, 0x00]);
    assert m == [0x18, 0x00, 0x1A, 0x00, 0x02, 0x00] + [0xC0, 0xE2, 0x00, 0x00, 0x65, 0x99];
  }

  lemma MetricsField(m: seq<byte>)
    requires m == [0x18, 0x00, 0x1A, 0x00, 0x02, 0x00, 0xC0, 0xE2, 0x00, 0x00, 0x65, 0x99]
    ensures SERIAL.check(m + Zeros(18)) == 0
  {
    MetricsFront(m);
    ZerosKeepZero(18);
    ReadsOn(Crc.SEED, m, 0, Zeros(18), 0);
    FieldIs(m + Zeros(18), 0, 0);
  }

  lemma MetricsEncoded(g: Frame, m: seq<byte>)
    requires g == Metrics()
    requires m == [0x18, 0x00, 0x1A, 0x00, 0x02, 0x00, 0xC0, 0xE2, 0x00, 0x00, 0x65, 0x99]
    ensures Sendable(g, SERIAL) && Tame(g, true, SERIAL) && Encode(g, SERIAL) == SYNC + (m + Zeros(20))
  {
    MetricsBody(g, m);
    MetricsField(m);
    MetricsQuiet(m, 18);
    EncodedWithZeros(g, m, SERIAL);
  }

  lemma EncodedWithZeros(g: Frame, m: seq<byte>, link: Link)
    requires Sendable(g, link) && Body(g) == m + Zeros(18) && SYNC0 !in m + Zeros(18) && link.check(m + Zeros(18)) == 0
    ensures Tame(g, true, link) && Encode(g, link) == SYNC + (m + Zeros(20))
  {
    EncodedBy(g, m + Zeros(18), 0, 0, link);
    TwoZeros(18);
    ThirdBehind(m, Zeros(18), [0, 0]);
  }

  lemma MetricsQuiet(m: seq<byte>, n: nat)
    requires m == [0x18, 0x00, 0x1A, 0x00, 0x02, 0x00, 0xC0, 0xE2, 0x00, 0x00, 0x65, 0x99]
    ensures SYNC0 !in m + Zeros(n)
  {
  }

  // ---- A length byte changed ---------------------------------------------------------------

  lemma FirstByteChanged(e: seq<byte>, h: seq<byte>, t: seq<byte>, x: byte)
    requires h != [] && e == SYNC + (h + t)
    ensures Possible(Changed(2, x), e) && Apply(Changed(2, x), e) == SYNC + ([x] + h[1..] + t)
  {
  }

  /** A candidate that a wrong check field follows. */
  lemma BadCrcFront(x: seq<byte>, lo: byte, hi: byte, more: seq<byte>, link: Link)
    requires |x| >= 6 && |x| == 6 + GetLe16(x[0], x[1]) && 0 < GetLe16(x[0], x[1]) <= link.limit
    requires link.check(x) != lo + 256 * hi
    ensures var b := SYNC + x + ([lo, hi] + more);
            StartsWithSync(b) && Judge(b, link) == BadCrc && LengthField(b) == |x| - 6
  {
    var b, n := SYNC + x + ([lo, hi] + more), |x| - 6;
    assert b[2] == x[0] && b[3] == x[1];
    assert b[2..HEADER_SIZE + n] == x;
    assert b[HEADER_SIZE + n] == lo && b[HEADER_SIZE + n + 1] == hi;
  }

  /** The bytes both candidates hold behind their fronts; they leave the register of the fix as sent at
      zero. */
  function Common(h: seq<byte>, m: seq<byte>): seq<byte> {
    h + Zeros(56) + (SYNC + m)
  }

  lemma CommonReads(h: seq<byte>, m: seq<byte>, n: seq<byte>)
    requires Reads(0x27E9, h + Zeros(56), 0) && m == [0x18, 0x00, 0x1A, 0x00, 0x02, 0x00, 0xC0, 0xE2]
    requires n == SYNC + m
    ensures Reads(0x27E9, Common(h, m), 0)
  {
    assert n == [0x53, 0x59, 0x18, 0x00, 0x1A, 0x00, 0x02, 0x00, 0xC0, 0xE2];
    MetricsAgain(n);
    ReadsOn(0x27E9, h + Zeros(56), 0, n, 0);
  }

  lemma TopBits()
    ensures !Crc.CoefficientAt(0x27E9, 0) && Crc.CoefficientAt(0xC097, 0) && Crc.CoefficientAt(0xDC07, 0)
  {
  }

  lemma BothFronts(x: seq<byte>, y: seq<byte>, t: seq<byte>)
    requires x == [0x4C, 0x00, 0x08, 0x00, 0x01, 0x00, 0x53, 0x59, 0x44, 0x00] && y == [0x44, 0x00]
    requires Reads(0x27E9, t, 0)
    ensures SERIAL.check(x + t) != 0 && SERIAL.check(y + t) != 0
  {
    LongFront(x);
    InnerFront(y);
    TopBits();
    OtherFront(x, 0xC097, 0x27E9, t, 0, 0);
    OtherFront(y, 0xDC07, 0x27E9, t, 0, 0);
  }

  lemma FrontIs(o: seq<byte>, y: seq<byte>, x: seq<byte>)
    requires o == [0x4C, 0x00, 0x08, 0x00, 0x01, 0x00] && y == [0x44, 0x00]
    requires x == [0x4C, 0x00, 0x08, 0x00, 0x01, 0x00, 0x53, 0x59, 0x44, 0x00]
    ensures x == o + SYNC + y && GetLe16(x[0], x[1]) == 76 && GetLe16(y[0], y[1]) == 68
  {
  }

  lemma BehindEight(o: seq<byte>, y: seq<byte>, t: seq<byte>, u: seq<byte>)
    requires |o| == 6
    ensures (SYNC + (o + SYNC + y + t) + u)[8..] == SYNC + (y + t) + u
  {
    assert SYNC + (o + SYNC + y + t) + u == SYNC + o + (SYNC + (y + t) + u);
  }

  /** Front x, common part t, two zeros and more behind: one candidate at the front, another from byte 8. */
  lemma BothBad(x: seq<byte>, y: seq<byte>, t: seq<byte>, more: seq<byte>, s: seq<byte>)
    requires x == [0x4C, 0x00, 0x08, 0x00, 0x01, 0x00, 0x53, 0x59, 0x44, 0x00] && y == [0x44, 0x00]
    requires |t| == 72 && Reads(0x27E9, t, 0) && s == SYNC + (x + t) + ([0, 0] + more)
    ensures StartsWithSync(s) && Judge(s, SERIAL) == BadCrc && LengthField(s) == 76
    ensures StartsWithSync(s[8..]) && Judge(s[8..], SERIAL) == BadCrc && LengthField(s[8..]) == 68
  {
    BothFronts(x, y, t);
    FrontIs([0x4C, 0x00, 0x08, 0x00, 0x01, 0x00], y, x);
    BothBadBy([0x4C, 0x00, 0x08, 0x00, 0x01, 0x00], x, y, t, more, SERIAL);
  }

  lemma BothBadBy(o: seq<byte>, x: seq<byte>, y: seq<byte>, t: seq<byte>, more: seq<byte>, link: Link)
    requires |o| == 6 && |y| == 2 && x == o + SYNC + y && link.check(x + t) != 0 && link.check(y + t) != 0
    requires |t| == 72 && GetLe16(x[0], x[1]) == 76 <= link.limit && GetLe16(y[0], y[1]) == 68
    ensures var s := SYNC + (x + t) + ([0, 0] + more);
            StartsWithSync(s) && Judge(s, link) == BadCrc && LengthField(s) == 76 &&
            StartsWithSync(s[8..]) && Judge(s[8..], link) == BadCrc && LengthField(s[8..]) == 68
  {
    BadCrcFront(x + t, 0, 0, more, link);
    BadCrcFront(y + t, 0, 0, more, link);
    BehindEight(o, y, t, [0, 0] + more);
  }

  lemma InOrder(x: seq<byte>, h: seq<byte>, m: seq<byte>, r: seq<byte>)
    ensures SYNC + (x + (h + Zeros(56))) + (SYNC + (m + [0, 0] + r)) ==
            SYNC + (x + Common(h, m)) + ([0, 0] + r)
  {
  }

  lemma QuietParts(x: seq<byte>, h: seq<byte>, d: seq<byte>)
    requires x == [0x4C, 0x00, 0x08, 0x00, 0x01, 0x00, 0x53, 0x59, 0x44, 0x00]
    requires h == [0x00, 0x00, 0x00, 0x00, 0x58, 0xC3] && d == SYNC + (x + (h + Zeros(56)))
    ensures |d| == 74 && SYNC0 !in d[2..8] && SYNC0 !in d[10..]
  {
    forall i | 2 <= i < 74 && i != 8 && i != 9 ensures d[i] != SYNC0 {
      if i < 12 {
        assert d[i] == x[i - 2];
      } else if i < 18 {
        assert d[i] == h[i - 12];
      } else {
        assert d[i] == Zeros(56)[i - 18];
      }
    }
  }

  lemma ReachesBy(d: seq<byte>, g: Frame, s: seq<byte>, link: Link)
    requires |g.payload| < 0x1_0000 && s == d + Encode(g, link) && |d| == 74
    requires SYNC0 !in d[2..8] && SYNC0 !in d[10..]
    requires StartsWithSync(s) && Judge(s, link) == BadCrc && LengthField(s) == 76
    requires StartsWithSync(s[8..]) && Judge(s[8..], link) == BadCrc && LengthField(s[8..]) == 68
    ensures ReachesInto(d, 8, g, link)
  {
  }

  lemma MetricsSplit(m: seq<byte>, m8: seq<byte>, r: seq<byte>)
    requires m == [0x18, 0x00, 0x1A, 0x00, 0x02, 0x00, 0xC0, 0xE2, 0x00, 0x00, 0x65, 0x99]
    requires m8 == [0x18, 0x00, 0x1A, 0x00, 0x02, 0x00, 0xC0, 0xE2] && r == [0x65, 0x99] + Zeros(20)
    ensures m + Zeros(20) == m8 + [0, 0] + r
  {
  }

  lemma StreamIs(d: seq<byte>, x: seq<byte>, h: seq<byte>, m: seq<byte>, m8: seq<byte>, r: seq<byte>, g: Frame)
    requires d == SYNC + (x + (h + Zeros(56)))
    requires |g.payload| < 0x1_0000 && Encode(g, SERIAL) == SYNC + (m + Zeros(20)) && m + Zeros(20) == m8 + [0, 0] + r
    ensures d + Encode(g, SERIAL) == SYNC + (x + Common(h, m8)) + ([0, 0] + r)
  {
    InOrder(x, h, m8, r);
  }

  lemma FixReaches(f: Frame, g: Frame)
    requires f == Fix() && g == Metrics()
    ensures Sendable(f, SERIAL) && Sendable(g, SERIAL) && Tame(g, true, SERIAL)
    ensures Possible(Changed(2, 0x4C), Encode(f, SERIAL))
    ensures ReachesInto(Apply(Changed(2, 0x4C), Encode(f, SERIAL)), 8, g, SERIAL)
  {
    var h1: seq<byte> := [0x40, 0x00, 0x08, 0x00, 0x01, 0x00, 0x53, 0x59, 0x44, 0x00];
    var x: seq<byte> := [0x4C, 0x00, 0x08, 0x00, 0x01, 0x00, 0x53, 0x59, 0x44, 0x00];
    var h: seq<byte> := [0x00, 0x00, 0x00, 0x00, 0x58, 0xC3];
    var m: seq<byte> := [0x18, 0x00, 0x1A, 0x00, 0x02, 0x00, 0xC0, 0xE2, 0x00, 0x00, 0x65, 0x99];
    var m8: seq<byte> := [0x18, 0x00, 0x1A, 0x00, 0x02, 0x00, 0xC0, 0xE2];
    FixEncoded(f, h1, h);
    MetricsEncoded(g, m);
    Shortened(h1, x);
    FirstByteChanged(Encode(f, SERIAL), h1, h + Zeros(56), 0x4C);
    FixReachesBy(f, g, Apply(Changed(2, 0x4C), Encode(f, SERIAL)), x, h, m, m8);
  }

  lemma Shortened(h1: seq<byte>, x: seq<byte>)
    requires h1 == [0x40, 0x00, 0x08, 0x00, 0x01, 0x00, 0x53, 0x59, 0x44, 0x00]
    requires x == [0x4C, 0x00, 0x08, 0x00, 0x01, 0x00, 0x53, 0x59, 0x44, 0x00]
    ensures [0x4C] + h1[1..] == x
  {
  }

  lemma FixReachesBy(f: Frame, g: Frame, d: seq<byte>, x: seq<byte>, h: seq<byte>, m: seq<byte>, m8: seq<byte>)
    requires x == [0x4C, 0x00, 0x08, 0x00, 0x01, 0x00, 0x53, 0x59, 0x44, 0x00]
    requires h == [0x00, 0x00, 0x00, 0x00, 0x58, 0xC3] && d == SYNC + (x + (h + Zeros(56)))
    requires m == [0x18, 0x00, 0x1A, 0x00, 0x02, 0x00, 0xC0, 0xE2, 0x00, 0x00, 0x65, 0x99]
    requires m8 == [0x18, 0x00, 0x1A, 0x00, 0x02, 0x00, 0xC0, 0xE2] && Reads(0x27E9, h + Zeros(56), 0)
    requires |g.payload| < 0x1_0000 && Encode(g, SERIAL) == SYNC + (m + Zeros(20))
    ensures ReachesInto(d, 8, g, SERIAL)
  {
    var r := [0x65, 0x99] + Zeros(20);
    var s := d + Encode(g, SERIAL);
    QuietParts(x, h, d);
    MetricsSplit(m, m8, r);
    StreamIs(d, x, h, m, m8, r, g);
    CommonReads(h, m8, SYNC + m8);
    BothBad(x, [0x44, 0x00], Common(h, m8), r, s);
    ReachesBy(d, g, s, SERIAL);
  }

  lemma TwoMore(f: Frame, g: Frame, fs: seq<Frame>, d: Damage, link: Link)
    requires Sendable(f, link) && Sendable(g, link) && AllSendable(fs, link) && Possible(d, Encode(f, link))
    ensures AllSendable([f, g] + fs, link) && Possible(d, EncodeAll(Enc(link), [f, g] + fs))
  {
    FirstTwo(f, g, fs, link);
    DamageInFront(d, Encode(f, link), Encode(g, link) + EncodeAll(Enc(link), fs));
  }

  /** With 76 in place of 64 as the length byte of the fix, the firmware loses the metrics behind it,
      whatever follows, and the ground decoder does not. */
  lemma MetricsAreLost(fs: seq<Frame>)
    requires AllSendable(fs, SERIAL)
    ensures AllSendable([Fix(), Metrics()] + fs, SERIAL)
    ensures var w, d := EncodeAll(Enc(SERIAL), [Fix(), Metrics()] + fs), Changed(2, 0x4C);
            Possible(d, w) && SwallowedIn(Apply(d, w), Metrics(), fs, SERIAL)
  {
    var f, g, d := Fix(), Metrics(), Changed(2, 0x4C);
    FixReaches(f, g);
    TwoMore(f, g, fs, d, SERIAL);
    OneByteSwallowsNext(f, d, 8, g, fs, EncodeAll(Enc(SERIAL), [f, g] + fs), SERIAL);
  }

  // ---- A byte lost -------------------------------------------------------------------------

  lemma PaddedBody(f: Frame, o: seq<byte>, e: seq<byte>)
    requires f == Padded() && o == [0x40, 0x00, 0x08, 0x00, 0x01, 0x00, 0xD2, 0xF2]
    requires e == [0x53, 0x00, 0x59, 0x00, 0x00, 0x00]
    ensures |f.payload| == 64 && Body(f) == o + Zeros(56) + e
  {
    BodyIs(f, 64, 8, [0x40, 0x00, 0x08, 0x00, 0x01, 0x00]);
    assert o == [0x40, 0x00, 0x08, 0x00, 0x01, 0x00] + [0xD2, 0xF2];
  }

  lemma ZeroBehind(o: seq<byte>, e: seq<byte>, w: Crc.word)
    requires Reads(Crc.SEED, o, 0) && Reads(0, e, w)
    ensures Reads(Crc.SEED, o + Zeros(56) + e, w)
  {
    ZerosKeepZero(56);
    ReadsOn(Crc.SEED, o, 0, Zeros(56), 0);
    ReadsOn(Crc.SEED, o + Zeros(56), 0, e, w);
  }

  lemma PaddedEncoded(f: Frame, o: seq<byte>, e: seq<byte>)
    requires f == Padded() && o == [0x40, 0x00, 0x08, 0x00, 0x01, 0x00, 0xD2, 0xF2]
    requires e == [0x53, 0x00, 0x59, 0x00, 0x00, 0x00]
    ensures Sendable(f, SERIAL) && Encode(f, SERIAL) == SYNC + (o + Zeros(56) + e + [0x38, 0x38])
    ensures Tame(f, false, SERIAL)
  {
    PaddedBody(f, o, e);
    QuietFront(o);
    PadSent(e);
    ZeroBehind(o, e, 0x3838);
    FieldIs(o + Zeros(56) + e, 0x3838, 0x3838);
    EncodedBy(f, o + Zeros(56) + e, 0x38, 0x38, SERIAL);
    PaddedIsTame(f, o, e);
  }

  lemma PaddedIsTame(f: Frame, o: seq<byte>, e: seq<byte>)
    requires o == [0x40, 0x00, 0x08, 0x00, 0x01, 0x00, 0xD2, 0xF2] && e == [0x53, 0x00, 0x59, 0x00, 0x00, 0x00]
    requires Sendable(f, SERIAL) && Encode(f, SERIAL) == SYNC + (o + Zeros(56) + e + [0x38, 0x38])
    ensures Tame(f, false, SERIAL)
  {
    var t := Body(f) + PutLe16(SERIAL.check(Body(f)));
    assert Encode(f, SERIAL) == SYNC + t;
    assert t == Encode(f, SERIAL)[2..] == o + Zeros(56) + e + [0x38, 0x38];
    forall j | 0 <= j < |t| ensures !WordAt(t, j) {
      OnlyOneFirst(o, e, t, j);
    }
  }

  lemma OnlyOneFirst(o: seq<byte>, e: seq<byte>, t: seq<byte>, j: nat)
    requires o == [0x40, 0x00, 0x08, 0x00, 0x01, 0x00, 0xD2, 0xF2] && e == [0x53, 0x00, 0x59, 0x00, 0x00, 0x00]
    requires t == o + Zeros(56) + e + [0x38, 0x38] && j < |t|
    ensures !WordAt(t, j)
  {
    assert t[65] == e[1];
    if j < 8 {
      assert t[j] == o[j];
    } else if j < 64 {
      assert t[j] == Zeros(56)[j - 8];
    } else if j < 70 {
      assert t[j] == e[j - 64];
    }
  }

  /** The frame without byte 67, and g behind it. */
  lemma LostByte(e: seq<byte>, o: seq<byte>)
    requires |o| == 8 && e == SYNC + (o + Zeros(56) + [0x53, 0x00, 0x59, 0x00, 0x00, 0x00] + [0x38, 0x38])
    ensures Possible(Lost(67), e)
    ensures Apply(Lost(67), e) == SYNC + (o + Zeros(56) + [0x53, 0x59, 0x00, 0x00, 0x00, 0x38, 0x38])
  {
    assert e[..67] == SYNC + (o + Zeros(56) + [0x53]);
    assert e[68..] == [0x59, 0x00, 0x00, 0x00, 0x38, 0x38];
  }

  lemma LostIsBadCrc(o: seq<byte>, r: seq<byte>, s: seq<byte>)
    requires o == [0x40, 0x00, 0x08, 0x00, 0x01, 0x00, 0xD2, 0xF2]
    requires s == SYNC + (o + Zeros(56) + [0x53, 0x59, 0x00, 0x00, 0x00, 0x38]) + ([0x38, 0x53] + r)
    ensures StartsWithSync(s) && Judge(s, SERIAL) == BadCrc && LengthField(s) == 64
  {
    var l: seq<byte> := [0x53, 0x59, 0x00, 0x00, 0x00, 0x38];
    QuietFront(o);
    PadLost(l);
    ZeroBehind(o, l, 0xB461);
    FieldIs(o + Zeros(56) + l, 0xB461, 0xB461);
    FirstTwoOf(o, Zeros(56), l);
    BadCrcFront(o + Zeros(56) + l, 0x38, 0x53, r, SERIAL);
  }

  lemma FirstTwoOf(o: seq<byte>, z: seq<byte>, l: seq<byte>)
    requires o == [0x40, 0x00, 0x08, 0x00, 0x01, 0x00, 0xD2, 0xF2] && |z| == 56 && |l| == 6
    ensures var x := o + z + l;
            |x| == 70 && GetLe16(x[0], x[1]) == 64
  {
    var x := o + z + l;
    assert x[0] == o[0] && x[1] == o[1];
  }

  lemma LostStream(o: seq<byte>, d: seq<byte>, e: seq<byte>, r: seq<byte>, s: seq<byte>)
    requires |o| == 8 && d == SYNC + (o + Zeros(56) + [0x53, 0x59, 0x00, 0x00, 0x00, 0x38, 0x38])
    requires e == [0x53] + r && s == d + e
    ensures s == SYNC + (o + Zeros(56) + [0x53, 0x59, 0x00, 0x00, 0x00, 0x38]) + ([0x38, 0x53] + r)
    ensures s[66..] == [0x53, 0x59, 0x00, 0x00, 0x00, 0x38, 0x38] + e
  {
    BehindFront(SYNC + (o + Zeros(56)), [0x53, 0x59, 0x00, 0x00, 0x00, 0x38, 0x38], e, d);
    LastTwoMoved(SYNC, o + Zeros(56), [0x53, 0x59, 0x00, 0x00, 0x00, 0x38], r);
  }

  lemma BehindFront(a: seq<byte>, t: seq<byte>, e: seq<byte>, d: seq<byte>)
    requires d == a + t
    ensures |a| <= |d| && (d + e)[|a|..] == t + e
  {
  }

  lemma LastTwoMoved(a: seq<byte>, o: seq<byte>, l: seq<byte>, r: seq<byte>)
    ensures a + (o + (l + [0x38])) + ([0x53] + r) == a + (o + l) + ([0x38, 0x53] + r)
  {
  }

  lemma NoLengthThere(b: seq<byte>, e: seq<byte>, link: Link)
    requires b == [0x53, 0x59, 0x00, 0x00, 0x00, 0x38, 0x38] + e && e != []
    ensures StartsWithSync(b) && Judge(b, link) == BadLength
  {
  }

  lemma PaddedQuiet(o: seq<byte>, d: seq<byte>)
    requires o == [0x40, 0x00, 0x08, 0x00, 0x01, 0x00, 0xD2, 0xF2]
    requires d == SYNC + (o + Zeros(56) + [0x53, 0x59, 0x00, 0x00, 0x00, 0x38, 0x38])
    ensures |d| == 73 && SYNC0 !in d[2..66] && SYNC0 !in d[68..]
  {
    forall i | 2 <= i < 66 ensures d[i] != SYNC0 {
      assert if i < 10 then d[i] == o[i - 2] else d[i] == Zeros(56)[i - 10];
    }
  }

  lemma LostReachesBy(d: seq<byte>, g: Frame, s: seq<byte>, link: Link)
    requires |g.payload| < 0x1_0000 && s == d + Encode(g, link) && |d| == 73
    requires SYNC0 !in d[2..66] && SYNC0 !in d[68..]
    requires StartsWithSync(s) && Judge(s, link) == BadCrc && LengthField(s) == 64
    requires StartsWithSync(s[66..]) && Judge(s[66..], link) == BadLength
    ensures ReachesInto(d, 66, g, link)
  {
  }

  lemma PaddedReaches(f: Frame, g: Frame)
    requires f == Padded() && Sendable(g, SERIAL)
    ensures Sendable(f, SERIAL) && Tame(f, false, SERIAL) && Possible(Lost(67), Encode(f, SERIAL))
    ensures ReachesInto(Apply(Lost(67), Encode(f, SERIAL)), 66, g, SERIAL)
  {
    var o: seq<byte> := [0x40, 0x00, 0x08, 0x00, 0x01, 0x00, 0xD2, 0xF2];
    PaddedEncoded(f, o, [0x53, 0x00, 0x59, 0x00, 0x00, 0x00]);
    LostByte(Encode(f, SERIAL), o);
    LostReaches(o, Apply(Lost(67), Encode(f, SERIAL)), g);
  }

  lemma LostReaches(o: seq<byte>, d: seq<byte>, g: Frame)
    requires o == [0x40, 0x00, 0x08, 0x00, 0x01, 0x00, 0xD2, 0xF2] && Sendable(g, SERIAL)
    requires d == SYNC + (o + Zeros(56) + [0x53, 0x59, 0x00, 0x00, 0x00, 0x38, 0x38])
    ensures ReachesInto(d, 66, g, SERIAL)
  {
    var e := Encode(g, SERIAL);
    var s, r := d + e, e[1..];
    EncodedFields(g, SERIAL);
    assert e == [0x53] + r;
    PaddedQuiet(o, d);
    LostStream(o, d, e, r, s);
    LostIsBadCrc(o, r, s);
    NoLengthThere(s[66..], e, SERIAL);
    LostReachesBy(d, g, s, SERIAL);
  }

  /** For a lost byte it is not enough that no frame holds a second sync word: without its byte 67 this
      one swallows the frame behind it, any that does not hold the first sync byte again. */
  lemma LostByteSwallows(g: Frame, fs: seq<Frame>)
    requires Sendable(g, SERIAL) && Tame(g, true, SERIAL) && AllSendable(fs, SERIAL)
    ensures Sendable(Padded(), SERIAL) && Tame(Padded(), false, SERIAL)
    ensures AllSendable([Padded(), g] + fs, SERIAL)
    ensures var w := EncodeAll(Enc(SERIAL), [Padded(), g] + fs);
            Possible(Lost(67), w) && SwallowedIn(Apply(Lost(67), w), g, fs, SERIAL)
  {
    var f, d := Padded(), Lost(67);
    PaddedReaches(f, g);
    TwoMore(f, g, fs, d, SERIAL);
    OneByteSwallowsNext(f, d, 66, g, fs, EncodeAll(Enc(SERIAL), [f, g] + fs), SERIAL);
  }
}
