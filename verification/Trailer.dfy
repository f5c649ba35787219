/** The check field as a frame carries it, its low octet first, and its bits in the order in which the CRC
    consumes an octet's. */
module Trailer {
  import opened Bytes
  import opened Crc

  lemma OctetValue(o: octet)
    ensures o as int == Weight(o & 0x80 != 0, 128) + Weight(o & 0x40 != 0, 64) + Weight(o & 0x20 != 0, 32) +
                        Weight(o & 0x10 != 0, 16) + Weight(o & 0x08 != 0, 8) + Weight(o & 0x04 != 0, 4) +
                        Weight(o & 0x02 != 0, 2) + Weight(o & 0x01 != 0, 1)
  {
  }

  lemma ValueOfPair(p: seq<bool>, a: bool, b: bool)
    ensures Value(p + [a, b]) == 4 * Value(p) + Weight(a, 2) + Weight(b, 1)
  {
    assert (p + [a, b])[..|p| + 1] == p + [a];
    assert (p + [a])[..|p|] == p;
  }

  lemma ValueOfFour(p: seq<bool>, a: bool, b: bool, c: bool, d: bool)
    ensures Value(p + [a, b, c, d]) == 16 * Value(p) + Weight(a, 8) + Weight(b, 4) + Weight(c, 2) + Weight(d, 1)
  {
    ValueOfPair(p, a, b);
    ValueOfPair(p + [a, b], c, d);
    assert p + [a, b] + [c, d] == p + [a, b, c, d];
  }

  lemma FourOf(q: seq<bool>)
    requires |q| == 4
    ensures q == [q[0], q[1], q[2], q[3]] && [] + q == q
  {
  }

  lemma ValueBehind(p: seq<bool>, q: seq<bool>)
    requires |q| == 4
    ensures Value(p + q) == 16 * Value(p) + NibbleValue(q)
  {
    FourOf(q);
    ValueOfFour(p, q[0], q[1], q[2], q[3]);
  }

  lemma ValueOfNibbles(p: seq<bool>, q: seq<bool>)
    requires |p| == |q| == 4
    ensures Value(p + q) == 16 * NibbleValue(p) + NibbleValue(q)
  {
    FourOf(p);
    ValueBehind([], p);
    ValueBehind(p, q);
  }

  lemma DigitsOfEight(n: nat, p: seq<bool>, q: seq<bool>)
    requires |p| == |q| == 4 && n == 16 * NibbleValue(p) + NibbleValue(q)
    ensures Digits(n, 8) == p + q
  {
    ValueOfNibbles(p, q);
    DigitsOfValue(p + q);
  }

  function NibbleValue(p: seq<bool>): nat
    requires |p| == 4
  {
    Weight(p[0], 8) + Weight(p[1], 4) + Weight(p[2], 2) + Weight(p[3], 1)
  }

  lemma BitsFromFlags(o: octet)
    ensures BitsOf(o) == [o & 0x80 != 0, o & 0x40 != 0, o & 0x20 != 0, o & 0x10 != 0] +
                         [o & 0x08 != 0, o & 0x04 != 0, o & 0x02 != 0, o & 0x01 != 0]
  {
  }

  lemma OctetBackBits(o: octet, n: nat)
    requires n == o as int
    ensures n < 256 && BitsOf(ToOctet(n)) == BitsOf(o)
  {
    var p := [o & 0x80 != 0, o & 0x40 != 0, o & 0x20 != 0, o & 0x10 != 0];
    var q := [o & 0x08 != 0, o & 0x04 != 0, o & 0x02 != 0, o & 0x01 != 0];
    OctetValue(o);
    DigitsOfEight(n, p, q);
    BitsFromFlags(o);
    OctetDigits(n);
  }

  lemma OctetBack(o: octet)
    ensures o as int < 256 && ToOctet(o as int) == o
  {
    OctetBackBits(o, o as int);
    BitsOfInjective(ToOctet(o as int), o);
  }

  lemma HighHalf(w: word) returns (h: octet, x: word)
    ensures x == (h as word) << 8 && x == w & 0xFF00
  {
    h := (w >> 8) as octet;
    x := w & 0xFF00;
  }

  lemma LowHalf(w: word) returns (l: octet, y: word)
    ensures y == l as word && y == w & 0xFF
  {
    l := (w & 0xFF) as octet;
    y := w & 0xFF;
  }

  lemma HalvesJoin(w: word, x: word, y: word)
    requires x == w & 0xFF00 && y == w & 0xFF
    ensures w == x ^ y
  {
  }

  lemma SumOfHalves(w: word, h: octet, l: octet)
    requires (h as word) << 8 == w & 0xFF00 && l as word == w & 0xFF
    ensures w as int == 256 * (h as int) + l as int
  {
  }

  lemma ValueOfHalves(w: word, h: octet, l: octet, x: word, y: word)
    requires x == (h as word) << 8 && x == w & 0xFF00 && y == l as word && y == w & 0xFF
    ensures w as int == 256 * (h as int) + l as int
  {
    SumOfHalves(w, h, l);
  }

  lemma Halves(w: word) returns (h: octet, l: octet, x: word, y: word)
    ensures x == (h as word) << 8 && y == l as word && w == x ^ y
    ensures w as int == 256 * (h as int) + l as int
  {
    h, x := HighHalf(w);
    l, y := LowHalf(w);
    ValueOfHalves(w, h, l, x, y);
    HalvesJoin(w, x, y);
  }

  lemma PutHalves(value: u16, h: byte, l: byte)
    requires value == 256 * h + l
    ensures PutLe16(value) == [l, h]
  {
  }

  lemma LowOctetBit(b: octet, i: nat)
    requires i < 16
    ensures BitAt(b as word, i) == (i >= 8 && OctetBit(b, i - 8))
  {
    match i {
      case 0 => case 1 => case 2 => case 3 => case 4 => case 5 => case 6 => case 7 =>
      case 8 => case 9 => case 10 => case 11 => case 12 => case 13 => case 14 => case _ =>
    }
  }

  lemma JoinedRegister(w: word, x: word, y: word, h: octet, l: octet)
    requires w == x ^ y && x == (h as word) << 8 && y == l as word
    ensures RegisterOf(w) == BitsOf(h) + BitsOf(l)
  {
    XorRegister(x, y);
    forall i | 0 <= i < 16 ensures RegisterOf(w)[i] == (BitsOf(h) + BitsOf(l))[i] {
      HighOctetRegister(h, x, i);
      LowOctetRegister(l, i);
    }
  }

  lemma LowOctetRegister(b: octet, i: nat)
    requires i < 16
    ensures RegisterOf(b as word)[i] == (i >= 8 && BitsOf(b)[i - 8])
  {
    SameRegister(b as word);
    LowOctetBit(b, i);
    assert BitsRegister(b as word)[i] == BitAt(b as word, i);
  }

  // ---- The check field ---------------------------------------------------------------------

  lemma ValueOfHalf(q: seq<bool>)
    requires |q| == 8
    ensures Value(q) == 16 * NibbleValue(q[..4]) + NibbleValue(q[4..]) && Value(q) < 0x100
  {
    assert q == q[..4] + q[4..];
    ValueOfNibbles(q[..4], q[4..]);
  }

  lemma ValueOfTwo(p: seq<bool>, q: seq<bool>)
    requires |p| == |q| == 8
    ensures Value(p + q) == 0x100 * Value(p) + Value(q)
  {
    assert p + q == p + q[..4] + q[4..];
    ValueBehind(p + q[..4], q[4..]);
    ValueBehind(p, q[..4]);
    ValueOfHalf(q);
  }

  lemma OctetNumber(o: octet)
    ensures o as int == Value(BitsOf(o))
  {
    OctetValue(o);
    BitsFromFlags(o);
    ValueOfNibbles([o & 0x80 != 0, o & 0x40 != 0, o & 0x20 != 0, o & 0x10 != 0],
                   [o & 0x08 != 0, o & 0x04 != 0, o & 0x02 != 0, o & 0x01 != 0]);
  }

  /** The number a register stands for is the word's. */
  lemma RegisterNumber(w: word)
    ensures FieldOf(RegisterOf(w)) == w as int
  {
    var h, l, x, y := Halves(w);
    JoinedRegister(w, x, y, h, l);
    OctetNumber(h);
    OctetNumber(l);
    ValueOfTwo(BitsOf(h), BitsOf(l));
  }

  /** What both ends send and compare is the CRC's register as a number. */
  lemma CheckFieldIsRegister(data: seq<byte>)
    ensures CheckField(data) == Crc16(SEED, Octets(data)) as int
  {
    RegisterNumber(Crc16(SEED, Octets(data)));
  }

  /** The firmware's two calls, over header and payload, give the same field as one over both. */
  lemma CheckFieldInTwoCalls(header: seq<byte>, payload: seq<byte>)
    ensures Crc16(Crc16(SEED, Octets(header)), Octets(payload)) as int == CheckField(header + payload)
  {
    Crc16Concat(SEED, Octets(header), Octets(payload));
    OctetsConcat(header, payload);
    CheckFieldIsRegister(header + payload);
  }

  lemma OctetOfValue(q: seq<bool>)
    requires |q| == 8
    ensures Value(q) < 0x100 && BitsOf(ToOctet(Value(q))) == q
  {
    ValueOfHalf(q);
    OctetDigits(Value(q));
    DigitsOfValue(q);
  }

  lemma BitsOfTwo(h: byte, l: byte)
    ensures Bits(Octets([l, h])) == BitsOf(ToOctet(l)) + BitsOf(ToOctet(h))
  {
    var o := [ToOctet(l), ToOctet(h)];
    assert Octets([l, h]) == o && o[1..] == [ToOctet(h)] && [ToOctet(h)][1..] == [];
    assert Bits([ToOctet(h)]) == BitsOf(ToOctet(h)) + Bits([]);
    assert Bits(o) == BitsOf(ToOctet(l)) + Bits([ToOctet(h)]);
  }

  /** The bits of a check field, in terms of the register they come from. */
  lemma TrailerBits(r: Register)
    ensures Bits(Octets(PutLe16(FieldOf(r)))) == r[8..] + r[..8]
  {
    assert r == r[..8] + r[8..];
    ValueOfTwo(r[..8], r[8..]);
    OctetOfValue(r[..8]);
    OctetOfValue(r[8..]);
    PutHalves(FieldOf(r), Value(r[..8]), Value(r[8..]));
    BitsOfTwo(Value(r[..8]), Value(r[8..]));
  }
}
