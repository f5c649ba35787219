/** CRC-16 with the generator polynomial x^16 + x^12 + x^5 + 1 (ITU-T V.41, section 2),
    most significant bit first, as both ends of the serial link compute it. */
module Crc {
  import opened Bytes

  type octet = bv8
  type word = bv16

  const POLYNOMIAL: word := 0x1021
  const SEED: word := 0xFFFF

  /** One turn of the inner loop: shift left, reducing when the top bit falls out. */
  function Shift(crc: word): word {
    if crc & 0x8000 != 0 then (crc << 1) ^ POLYNOMIAL else crc << 1
  }

  function ShiftN(crc: word, n: nat): word
    decreases n
  {
    if n == 0 then crc else ShiftN(Shift(crc), n - 1)
  }

  function ByteStep(crc: word, b: octet): word {
    ShiftN(crc ^ ((b as word) << 8), 8)
  }

  function Crc16(seed: word, data: seq<octet>): word
    decreases |data|
  {
    if data == [] then seed else Crc16(ByteStep(seed, data[0]), data[1..])
  }

  /** The nested loops of the source compute Crc16. */
  method ComputeCrc16(data: seq<octet>, seed: word) returns (crc: word)
    ensures crc == Crc16(seed, data)
  {
    crc := seed;
    for i := 0 to |data|
      invariant Crc16(crc, data[i..]) == Crc16(seed, data)
    {
      ghost var before := crc;
      crc := crc ^ ((data[i] as word) << 8);
      for k := 0 to 8
        invariant ShiftN(crc, 8 - k) == ByteStep(before, data[i])
      {
        crc := Shift(crc);
      }
      assert data[i..][0] == data[i] && data[i..][1..] == data[i + 1..];
    }
  }

  /** Two calls, header then payload, are one call over the concatenation. */
  lemma {:induction false} Crc16Concat(seed: word, a: seq<octet>, b: seq<octet>)
    ensures Crc16(Crc16(seed, a), b) == Crc16(seed, a + b)
    decreases |a|
  {
    if a == [] {
      assert a + b == b;
    } else {
      Crc16Concat(ByteStep(seed, a[0]), a[1..], b);
      assert (a + b)[1..] == a[1..] + b;
    }
  }

  // ---- Bit view ---------------------------------------------------------------

  /** Bit i of an octet in the order in which the CRC consumes it, most significant first. A UART
      sends each octet the other way round; bursts are counted in the CRC's order. */
  predicate OctetBit(b: octet, i: nat) {
    match i
    case 0 => b & 0x80 != 0
    case 1 => b & 0x40 != 0
    case 2 => b & 0x20 != 0
    case 3 => b & 0x10 != 0
    case 4 => b & 0x08 != 0
    case 5 => b & 0x04 != 0
    case 6 => b & 0x02 != 0
    case _ => b & 0x01 != 0
  }

  function BitsOf(b: octet): (r: seq<bool>)
    ensures |r| == 8
  {
    seq(8, i requires 0 <= i < 8 => OctetBit(b, i))
  }

  function Bits(data: seq<octet>): (r: seq<bool>)
    ensures |r| == 8 * |data|
  {
    if data == [] then [] else BitsOf(data[0]) + Bits(data[1..])
  }

  /** The word with only coefficient i, counted from the highest power. */
  function Power(i: nat): word {
    match i
    case 0 => 0x8000
    case 1 => 0x4000
    case 2 => 0x2000
    case 3 => 0x1000
    case 4 => 0x0800
    case 5 => 0x0400
    case 6 => 0x0200
    case 7 => 0x0100
    case 8 => 0x0080
    case 9 => 0x0040
    case 10 => 0x0020
    case 11 => 0x0010
    case 12 => 0x0008
    case 13 => 0x0004
    case 14 => 0x0002
    case _ => 0x0001
  }

  /** Coefficient i of the register seen as a polynomial. */
  predicate CoefficientAt(x: word, i: nat) {
    x & Power(i) != 0
  }

  type Register = r: seq<bool> | |r| == 16 witness seq(16, _ => false)

  function RegisterOf(x: word): Register {
    seq(16, i requires 0 <= i < 16 => CoefficientAt(x, i))
  }

  /** The generator polynomial has the term that coefficient i stands for. */
  predicate Tap(i: nat) {
    i == 3 || i == 10 || i == 15
  }

  /** Polynomial division by one more message bit. */
  function Divide(r: Register, bit: bool): (next: Register) {
    seq(16, i requires 0 <= i < 16 => (i < 15 && r[i + 1]) != (Tap(i) && r[0] != bit))
  }

  function DivideAll(r: Register, bits: seq<bool>): Register
    decreases |bits|
  {
    if bits == [] then r else DivideAll(Divide(r, bits[0]), bits[1..])
  }

  // The word operations are the polynomial operations, coefficient by coefficient.

  lemma PowerIsSingle(i: nat)
    ensures Power(i) & (Power(i) - 1) == 0
  {
  }

  lemma XorFlag(x: word, y: word, m: word)
    requires m & (m - 1) == 0
    ensures ((x ^ y) & m != 0) == ((x & m != 0) != (y & m != 0))
  {
    assert (x ^ y) & m == (x & m) ^ (y & m);
    assert x & m == 0 || x & m == m;
    assert y & m == 0 || y & m == m;
  }

  lemma XorAt(x: word, y: word, i: nat)
    ensures CoefficientAt(x ^ y, i) == (CoefficientAt(x, i) != CoefficientAt(y, i))
  {
    PowerIsSingle(i);
    XorFlag(x, y, Power(i));
  }

  /** The same coefficient, case by case. */
  predicate BitAt(x: word, i: nat) {
    match i
    case 0 => x & 0x8000 != 0
    case 1 => x & 0x4000 != 0
    case 2 => x & 0x2000 != 0
    case 3 => x & 0x1000 != 0
    case 4 => x & 0x0800 != 0
    case 5 => x & 0x0400 != 0
    case 6 => x & 0x0200 != 0
    case 7 => x & 0x0100 != 0
    case 8 => x & 0x0080 != 0
    case 9 => x & 0x0040 != 0
    case 10 => x & 0x0020 != 0
    case 11 => x & 0x0010 != 0
    case 12 => x & 0x0008 != 0
    case 13 => x & 0x0004 != 0
    case 14 => x & 0x0002 != 0
    case _ => x & 0x0001 != 0
  }

  lemma SameBit(x: word, i: nat, m: word)
    requires i < 16 && m == Power(i)
    ensures BitAt(x, i) == (x & m != 0)
  {
    if i < 8 {
      match i {
        case 0 => assert m == 0x8000;
        case 1 => assert m == 0x4000;
        case 2 => assert m == 0x2000;
        case 3 => assert m == 0x1000;
        case 4 => assert m == 0x0800;
        case 5 => assert m == 0x0400;
        case 6 => assert m == 0x0200;
        case _ => assert m == 0x0100;
      }
    } else {
      match i {
        case 8 => assert m == 0x0080;
        case 9 => assert m == 0x0040;
        case 10 => assert m == 0x0020;
        case 11 => assert m == 0x0010;
        case 12 => assert m == 0x0008;
        case 13 => assert m == 0x0004;
        case 14 => assert m == 0x0002;
        case _ => assert m == 0x0001;
      }
    }
  }

  function BitsRegister(x: word): Register {
    seq(16, i requires 0 <= i < 16 => BitAt(x, i))
  }

  lemma SameRegister(x: word)
    ensures RegisterOf(x) == BitsRegister(x)
  {
    forall i | 0 <= i < 16 ensures RegisterOf(x)[i] == BitsRegister(x)[i] {
      SameBit(x, i, Power(i));
    }
  }

  lemma ShiftBit(x: word, i: nat)
    requires i < 16
    ensures BitAt(Shift(x), i) == ((i < 15 && BitAt(x, i + 1)) != (Tap(i) && BitAt(x, 0)))
  {
    match i {
      case 0 => case 1 => case 2 => case 3 => case 4 => case 5 => case 6 => case 7 =>
      case 8 => case 9 => case 10 => case 11 => case 12 => case 13 => case 14 => case _ =>
    }
  }

  lemma HighOctetBit(b: octet, i: nat)
    requires i < 16
    ensures BitAt((b as word) << 8, i) == (i < 8 && OctetBit(b, i))
  {
    match i {
      case 0 => case 1 => case 2 => case 3 => case 4 => case 5 => case 6 => case 7 =>
      case 8 => case 9 => case 10 => case 11 => case 12 => case 13 => case 14 => case _ =>
    }
  }

  lemma ShiftBits(x: word)
    ensures BitsRegister(Shift(x)) == Divide(BitsRegister(x), false)
  {
    forall i | 0 <= i < 16 ensures BitsRegister(Shift(x))[i] == Divide(BitsRegister(x), false)[i] {
      ShiftBit(x, i);
    }
  }

  lemma ShiftDivides(x: word)
    ensures RegisterOf(Shift(x)) == Divide(RegisterOf(x), false)
  {
    SameRegister(x);
    SameRegister(Shift(x));
    ShiftBits(x);
  }

  /** The register with a window of bits added to its top. */
  function AddWindow(r: Register, w: seq<bool>): Register
    requires |w| <= 16
  {
    seq(16, i requires 0 <= i < 16 => r[i] != (i < |w| && w[i]))
  }

  function Mix(r: Register, s: Register): Register {
    seq(16, i requires 0 <= i < 16 => r[i] != s[i])
  }

  lemma XorRegister(x: word, y: word)
    ensures RegisterOf(x ^ y) == Mix(RegisterOf(x), RegisterOf(y))
  {
    forall i | 0 <= i < 16 ensures RegisterOf(x ^ y)[i] == Mix(RegisterOf(x), RegisterOf(y))[i] {
      XorAt(x, y, i);
    }
  }

  lemma HighOctetRegister(b: octet, y: word, i: nat)
    requires y == (b as word) << 8 && i < 16
    ensures RegisterOf(y)[i] == (i < 8 && BitsOf(b)[i])
  {
    SameRegister(y);
    HighOctetBit(b, i);
    assert BitsRegister(y)[i] == BitAt(y, i);
  }

  lemma AddOctetWindow(x: word, b: octet, y: word)
    requires y == (b as word) << 8
    ensures RegisterOf(x ^ y) == AddWindow(RegisterOf(x), BitsOf(b))
  {
    XorRegister(x, y);
    forall i | 0 <= i < 16 ensures RegisterOf(y)[i] == (i < 8 && BitsOf(b)[i]) {
      HighOctetRegister(b, y, i);
    }
  }

  lemma {:induction false} ShiftNDivides(x: word, n: nat)
    ensures RegisterOf(ShiftN(x, n)) == DivideAll(RegisterOf(x), seq(n, _ => false))
    decreases n
  {
    if n > 0 {
      ShiftDivides(x);
      ShiftNDivides(Shift(x), n - 1);
      assert seq(n, _ => false)[1..] == seq(n - 1, _ => false);
    }
  }

  /** Adding a window and shifting it out divides in its bits one by one. */
  lemma {:induction false} WindowDivides(r: Register, w: seq<bool>)
    requires |w| <= 16
    ensures DivideAll(AddWindow(r, w), seq(|w|, _ => false)) == DivideAll(r, w)
    decreases |w|
  {
    if w == [] {
      assert AddWindow(r, w) == r;
    } else {
      assert seq(|w|, _ => false)[1..] == seq(|w| - 1, _ => false);
      assert Divide(AddWindow(r, w), false) == AddWindow(Divide(r, w[0]), w[1..]);
      WindowDivides(Divide(r, w[0]), w[1..]);
    }
  }

  lemma {:induction false} DivideAllConcat(r: Register, a: seq<bool>, b: seq<bool>)
    ensures DivideAll(r, a + b) == DivideAll(DivideAll(r, a), b)
    decreases |a|
  {
    if a == [] {
      assert a + b == b;
    } else {
      assert (a + b)[1..] == a[1..] + b;
      DivideAllConcat(Divide(r, a[0]), a[1..], b);
    }
  }

  lemma OctetDivides(crc: word, b: octet)
    ensures RegisterOf(ByteStep(crc, b)) == DivideAll(RegisterOf(crc), BitsOf(b))
  {
    AddOctetWindow(crc, b, (b as word) << 8);
    ShiftNDivides(crc ^ ((b as word) << 8), 8);
    WindowDivides(RegisterOf(crc), BitsOf(b));
  }

  /** The octet-wise CRC is the remainder of the bit-wise polynomial division. */
  lemma {:induction false} Crc16Divides(seed: word, data: seq<octet>)
    ensures RegisterOf(Crc16(seed, data)) == DivideAll(RegisterOf(seed), Bits(data))
    decreases |data|
  {
    if data != [] {
      OctetDivides(seed, data[0]);
      Crc16Divides(ByteStep(seed, data[0]), data[1..]);
      DivideAllConcat(RegisterOf(seed), BitsOf(data[0]), Bits(data[1..]));
    }
  }

  // ---- Error detection --------------------------------------------------------

  /** Two registers made equal by n <= 16 bits agreed below the top n coefficients,
      whatever the bits were; and if they were equal, so were the bits. */
  lemma {:induction false} WindowDecided(p: Register, q: Register, u: seq<bool>, v: seq<bool>)
    requires |u| == |v| <= 16
    requires DivideAll(p, u) == DivideAll(q, v)
    ensures forall i :: |u| <= i < 16 ==> p[i] == q[i]
    ensures p == q ==> u == v
    decreases |u|
  {
    if u != [] {
      var x, y := Divide(p, u[0]), Divide(q, v[0]);
      WindowDecided(x, y, u[1..], v[1..]);
      assert x[15] == y[15];
      forall i | |u| <= i < 16 ensures p[i] == q[i] {
        assert x[i - 1] == y[i - 1];
      }
      if p == q {
        assert u == [u[0]] + u[1..] && v == [v[0]] + v[1..];
      }
    }
  }

  /** Different registers never meet again on the same bits. */
  lemma {:induction false} RegisterDecided(p: Register, q: Register, bits: seq<bool>)
    requires DivideAll(p, bits) == DivideAll(q, bits)
    ensures p == q
    decreases |bits|
  {
    if bits != [] {
      var x, y := Divide(p, bits[0]), Divide(q, bits[0]);
      RegisterDecided(x, y, bits[1..]);
      assert x[15] == y[15];
      forall i | 0 <= i < 16 ensures p[i] == q[i] {
        if i > 0 {
          assert x[i - 1] == y[i - 1];
        }
      }
    }
  }

  lemma {:induction false} BitsInjective(a: seq<octet>, b: seq<octet>)
    requires Bits(a) == Bits(b)
    ensures a == b
  {
    if a == [] {
      assert b == [];
    } else {
      assert Bits(a)[..8] == BitsOf(a[0]) && Bits(b)[..8] == BitsOf(b[0]);
      assert Bits(a)[8..] == Bits(a[1..]) && Bits(b)[8..] == Bits(b[1..]);
      BitsOfInjective(a[0], b[0]);
      BitsInjective(a[1..], b[1..]);
      assert a == [a[0]] + a[1..] && b == [b[0]] + b[1..];
    }
  }

  lemma BitsOfInjective(a: octet, b: octet)
    requires BitsOf(a) == BitsOf(b)
    ensures a == b
  {
    forall i | 0 <= i < 8 ensures OctetBit(a, i) == OctetBit(b, i) {
      assert BitsOf(a)[i] == BitsOf(b)[i];
    }
    assert OctetBit(a, 0) == OctetBit(b, 0) && OctetBit(a, 1) == OctetBit(b, 1);
    assert OctetBit(a, 2) == OctetBit(b, 2) && OctetBit(a, 3) == OctetBit(b, 3);
    assert OctetBit(a, 4) == OctetBit(b, 4) && OctetBit(a, 5) == OctetBit(b, 5);
    assert OctetBit(a, 6) == OctetBit(b, 6) && OctetBit(a, 7) == OctetBit(b, 7);
  }

  /** All differences lie in width bits from start on. */
  ghost predicate Within(x: seq<bool>, y: seq<bool>, start: nat, width: nat) {
    |x| == |y| && forall k :: 0 <= k < |x| && !(start <= k < start + width) ==> x[k] == y[k]
  }

  /** All differences of two equally long messages lie in that many consecutive bits. */
  ghost predicate BurstDiffer(a: seq<octet>, b: seq<octet>, start: nat, width: nat) {
    |a| == |b| && Within(Bits(a), Bits(b), start, width)
  }

  lemma SplitThree(r: Register, x: seq<bool>, lo: nat, hi: nat)
    requires lo <= hi <= |x|
    ensures DivideAll(r, x) == DivideAll(DivideAll(DivideAll(r, x[..lo]), x[lo..hi]), x[hi..])
  {
    assert x == x[..hi] + x[hi..] && x[..hi] == x[..lo] + x[lo..hi];
    DivideAllConcat(r, x[..hi], x[hi..]);
    DivideAllConcat(r, x[..lo], x[lo..hi]);
  }

  lemma BurstDivides(r: Register, x: seq<bool>, y: seq<bool>, lo: nat, hi: nat)
    requires |x| == |y| && lo <= hi <= |x| && hi - lo <= 16
    requires x[..lo] == y[..lo] && x[hi..] == y[hi..]
    requires DivideAll(r, x) == DivideAll(r, y)
    ensures x[lo..hi] == y[lo..hi]
  {
    SplitThree(r, x, lo, hi);
    SplitThree(r, y, lo, hi);
    var s := DivideAll(r, x[..lo]);
    RegisterDecided(DivideAll(s, x[lo..hi]), DivideAll(s, y[lo..hi]), x[hi..]);
    WindowDecided(s, s, x[lo..hi], y[lo..hi]);
  }

  lemma BurstBits(r: Register, x: seq<bool>, y: seq<bool>, start: nat)
    requires |x| == |y| && DivideAll(r, x) == DivideAll(r, y)
    requires forall k :: 0 <= k < |x| && !(start <= k < start + 16) ==> x[k] == y[k]
    ensures x == y
  {
    var lo := if start <= |x| then start else |x|;
    var hi := if lo + 16 <= |x| then lo + 16 else |x|;
    BurstDivides(r, x, y, lo, hi);
    forall k | 0 <= k < |x| ensures x[k] == y[k] {
      if lo <= k < hi {
        assert x[lo..hi][k - lo] == y[lo..hi][k - lo];
      }
    }
  }

  /** No burst of up to 16 bits goes unnoticed, in a message of any length. */
  lemma BurstDetected(seed: word, a: seq<octet>, b: seq<octet>, start: nat)
    requires BurstDiffer(a, b, start, 16)
    ensures Crc16(seed, a) == Crc16(seed, b) <==> a == b
  {
    if Crc16(seed, a) == Crc16(seed, b) {
      Crc16Divides(seed, a);
      Crc16Divides(seed, b);
      BurstBits(RegisterOf(seed), Bits(a), Bits(b), start);
      BitsInjective(a, b);
    }
  }

  lemma OctetCheck(crc: word, b: octet, middle: word, next: word)
    requires Shift(Shift(Shift(Shift(crc ^ ((b as word) << 8))))) == middle
    requires Shift(Shift(Shift(Shift(middle)))) == next
    ensures ByteStep(crc, b) == next
  {
    var x := crc ^ ((b as word) << 8);
    assert ShiftN(x, 8) == ShiftN(Shift(Shift(x)), 6) == ShiftN(Shift(Shift(Shift(Shift(x)))), 4);
    assert ShiftN(middle, 4) == ShiftN(Shift(Shift(middle)), 2) == next;
  }

  /** The published check value of this CRC, for the octets "123456789". */
  lemma CheckValue()
    ensures Crc16(SEED, [0x31, 0x32, 0x33, 0x34, 0x35, 0x36, 0x37, 0x38, 0x39]) == 0x29B1
  {
    OctetCheck(0xFFFF, 0x31, 0x2E7C, 0xC782);
    OctetCheck(0xC782, 0x32, 0xA9CF, 0x3DBA);
    OctetCheck(0x3DBA, 0x33, 0xEBA0, 0x5BCE);
    OctetCheck(0x5BCE, 0x34, 0x9C26, 0x5349);
    OctetCheck(0x5349, 0x35, 0x0456, 0x4560);
    OctetCheck(0x4560, 0x36, 0x46E7, 0x2EF4);
    OctetCheck(0x2EF4, 0x37, 0x8F61, 0x7718);
    OctetCheck(0x7718, 0x38, 0xB104, 0xA12B);
    OctetCheck(0xA12B, 0x39, 0x1399, 0x29B1);
  }

  // ---- Bytes and octets -----------------------------------------------------------

  /** The k lowest binary digits, most significant first. */
  function Digits(n: nat, k: nat): (r: seq<bool>)
    ensures |r| == k
  {
    if k == 0 then [] else Digits(n / 2, k - 1) + [n % 2 == 1]
  }

  function Flag(on: bool, m: octet): octet {
    if on then m else 0
  }

  function Pack(d: seq<bool>): octet
    requires |d| == 8
  {
    Flag(d[0], 0x80) | Flag(d[1], 0x40) | Flag(d[2], 0x20) | Flag(d[3], 0x10) |
    Flag(d[4], 0x08) | Flag(d[5], 0x04) | Flag(d[6], 0x02) | Flag(d[7], 0x01)
  }

  /** A byte as its eight bits. */
  function ToOctet(n: byte): octet {
    Pack(Digits(n, 8))
  }

  function PowerOfTwo(k: nat): nat {
    if k == 0 then 1 else 2 * PowerOfTwo(k - 1)
  }

  function Weight(on: bool, m: nat): nat {
    if on then m else 0
  }

  function Value(d: seq<bool>): (n: nat)
    ensures n < PowerOfTwo(|d|)
  {
    if d == [] then 0 else 2 * Value(d[..|d| - 1]) + Weight(d[|d| - 1], 1)
  }

  lemma {:induction false} DigitsOfValue(d: seq<bool>)
    ensures Digits(Value(d), |d|) == d
    decreases |d|
  {
    if d != [] {
      DigitsOfValue(d[..|d| - 1]);
      assert d == d[..|d| - 1] + [d[|d| - 1]];
    }
  }

  lemma {:induction false} DigitsInjective(m: nat, n: nat, k: nat)
    requires m < PowerOfTwo(k) && n < PowerOfTwo(k) && Digits(m, k) == Digits(n, k)
    ensures m == n
    decreases k
  {
    if k > 0 {
      var p, q := Digits(m / 2, k - 1), Digits(n / 2, k - 1);
      assert p == Digits(m, k)[..k - 1] == q;
      assert Digits(m, k)[k - 1] == Digits(n, k)[k - 1];
      DigitsInjective(m / 2, n / 2, k - 1);
    }
  }

  lemma FlagsApart(o: octet, a: bool, b: bool, c: bool, d: bool, e: bool, f: bool, g: bool, h: bool)
    requires o == Flag(a, 0x80) | Flag(b, 0x40) | Flag(c, 0x20) | Flag(d, 0x10) |
                  Flag(e, 0x08) | Flag(f, 0x04) | Flag(g, 0x02) | Flag(h, 0x01)
    ensures a == (o & 0x80 != 0) && b == (o & 0x40 != 0) && c == (o & 0x20 != 0) && d == (o & 0x10 != 0)
    ensures e == (o & 0x08 != 0) && f == (o & 0x04 != 0) && g == (o & 0x02 != 0) && h == (o & 0x01 != 0)
  {
  }

  lemma PackInjective(d: seq<bool>, e: seq<bool>)
    requires |d| == |e| == 8 && Pack(d) == Pack(e)
    ensures d == e
  {
    FlagsApart(Pack(d), d[0], d[1], d[2], d[3], d[4], d[5], d[6], d[7]);
    FlagsApart(Pack(e), e[0], e[1], e[2], e[3], e[4], e[5], e[6], e[7]);
  }

  /** The octet's bits, in the order the CRC consumes them, are the byte's digits. */
  lemma OctetDigits(n: byte)
    ensures BitsOf(ToOctet(n)) == Digits(n, 8)
  {
    var d := Digits(n, 8);
    FlagsApart(Pack(d), d[0], d[1], d[2], d[3], d[4], d[5], d[6], d[7]);
    FlagsAreBits(Pack(d), d);
  }

  lemma FlagsAreBits(o: octet, d: seq<bool>)
    requires |d| == 8
    requires d[0] == (o & 0x80 != 0) && d[1] == (o & 0x40 != 0) && d[2] == (o & 0x20 != 0) && d[3] == (o & 0x10 != 0)
    requires d[4] == (o & 0x08 != 0) && d[5] == (o & 0x04 != 0) && d[6] == (o & 0x02 != 0) && d[7] == (o & 0x01 != 0)
    ensures BitsOf(o) == d
  {
  }

  lemma ToOctetInjective(m: byte, n: byte)
    requires ToOctet(m) == ToOctet(n)
    ensures m == n
  {
    PackInjective(Digits(m, 8), Digits(n, 8));
    assert PowerOfTwo(8) == 256;
    DigitsInjective(m, n, 8);
  }

  function Octets(data: seq<byte>): (o: seq<octet>)
    ensures |o| == |data|
  {
    seq(|data|, i requires 0 <= i < |data| => ToOctet(data[i]))
  }

  /** The check field both ends compute over the bytes between sync word and trailer. */
  function CheckField(data: seq<byte>): u16 {
    FieldOf(RegisterOf(Crc16(SEED, Octets(data))))
  }

  /** The number the register stands for. */
  function FieldOf(r: Register): u16 {
    SixteenBits();
    Value(r)
  }

  lemma SixteenBits()
    ensures PowerOfTwo(16) == 0x1_0000
  {
    assert PowerOfTwo(8) == 0x100 && PowerOfTwo(12) == 0x1000;
  }

  lemma OctetsInjective(a: seq<byte>, b: seq<byte>)
    requires Octets(a) == Octets(b)
    ensures a == b
  {
    forall i | 0 <= i < |a| ensures a[i] == b[i] {
      assert Octets(a)[i] == Octets(b)[i];
      ToOctetInjective(a[i], b[i]);
    }
  }

  lemma FieldDecides(r: Register, s: Register)
    requires FieldOf(r) == FieldOf(s)
    ensures r == s
  {
    DigitsOfValue(r);
    DigitsOfValue(s);
  }

  /** Messages with one check field leave one remainder. */
  lemma SameField(a: seq<byte>, b: seq<byte>)
    requires CheckField(a) == CheckField(b)
    ensures DivideAll(RegisterOf(SEED), Bits(Octets(a))) == DivideAll(RegisterOf(SEED), Bits(Octets(b)))
  {
    FieldDecides(RegisterOf(Crc16(SEED, Octets(a))), RegisterOf(Crc16(SEED, Octets(b))));
    Crc16Divides(SEED, Octets(a));
    Crc16Divides(SEED, Octets(b));
  }

  lemma SameBits(a: seq<byte>, b: seq<byte>)
    requires Bits(Octets(a)) == Bits(Octets(b))
    ensures a == b
  {
    BitsInjective(Octets(a), Octets(b));
    OctetsInjective(a, b);
  }

  /** No burst of up to 16 bits leaves the check field as it was. */
  lemma BurstChangesCheckField(a: seq<byte>, b: seq<byte>, start: nat)
    requires |a| == |b| && BurstDiffer(Octets(a), Octets(b), start, 16)
    ensures CheckField(a) == CheckField(b) <==> a == b
  {
    if CheckField(a) == CheckField(b) {
      SameField(a, b);
      BurstBits(RegisterOf(SEED), Bits(Octets(a)), Bits(Octets(b)), start);
      SameBits(a, b);
    }
  }

  lemma OctetsConcat(a: seq<byte>, b: seq<byte>)
    ensures Octets(a + b) == Octets(a) + Octets(b)
  {
  }
}
