/** The check values of the CRC, computed four bits at a time in hexadecimal digits. */
module CrcValues {
  import opened Bytes
  import opened BitStrings
  import opened Crc

  /** Four bits, as a hexadecimal digit. */
  datatype Digit = Digit(a: bool, b: bool, c: bool, d: bool)

  datatype Hex = Hex(d3: Digit, d2: Digit, d1: Digit, d0: Digit)

  /** The digit of a number below 16. */
  function DigitOf(n: nat): Digit {
    Digit(n / 8 % 2 == 1, n / 4 % 2 == 1, n / 2 % 2 == 1, n % 2 == 1)
  }

  function DigitBits(d: Digit): (r: seq<bool>)
    ensures |r| == 4
  {
    [d.a, d.b, d.c, d.d]
  }

  function DigitValue(d: Digit): nat {
    8 * Bit(d.a) + 4 * Bit(d.b) + 2 * Bit(d.c) + Bit(d.d)
  }

  function FromHex(h: Hex): Register {
    [h.d3.a, h.d3.b, h.d3.c, h.d3.d, h.d2.a, h.d2.b, h.d2.c, h.d2.d,
     h.d1.a, h.d1.b, h.d1.c, h.d1.d, h.d0.a, h.d0.b, h.d0.c, h.d0.d]
  }

  /** The register after one more bit. */
  function Fed(h: Hex, x: bool): Hex {
    var k := h.d3.a != x;
    Hex(Digit(h.d3.b, h.d3.c, h.d3.d, h.d2.a != k), Digit(h.d2.b, h.d2.c, h.d2.d, h.d1.a),
        Digit(h.d1.b, h.d1.c, h.d1.d != k, h.d0.a), Digit(h.d0.b, h.d0.c, h.d0.d, k))
  }

  /** And after four more. */
  function Taken(h: Hex, n: Digit): Hex {
    Fed(Fed(Fed(Fed(h, n.a), n.b), n.c), n.d)
  }

  lemma FeedBit(h: Hex, b: seq<bool>)
    requires b != []
    ensures Feed(FromHex(h), b) == Feed(FromHex(Fed(h, b[0])), b[1..])
  {
    hide Feed;
    var s := FeedOne(FromHex(h), b);
  }

  lemma FeedDigit(h: Hex, n: Digit)
    ensures Feed(FromHex(h), DigitBits(n)) == FromHex(Taken(h, n))
  {
    hide Feed, FromHex, Fed;
    var b := DigitBits(n);
    FeedBit(h, b);
    FeedBit(Fed(h, n.a), b[1..]);
    FeedBit(Fed(Fed(h, n.a), n.b), b[2..]);
    FeedBit(Fed(Fed(Fed(h, n.a), n.b), n.c), b[3..]);
    FeedNothing(FromHex(Taken(h, n)));
    assert b[1..][1..] == b[2..] && b[2..][1..] == b[3..] && b[3..][1..] == [];
  }

  lemma FeedNothing(r: Register)
    ensures Feed(r, []) == r
  {
  }

  lemma FeedOne(r: Register, b: seq<bool>) returns (s: Register)
    requires b != []
    ensures Feed(r, b) == Feed(s, b[1..])
    ensures var k := r[0] != b[0];
      s == [r[1], r[2], r[3], r[4] != k, r[5], r[6], r[7], r[8], r[9], r[10], r[11] != k, r[12], r[13], r[14], r[15], k]
  {
    hide Shift, Feed;
    var x := Xor(r, Pad(b[..1]));
    s := Shift(x);
    ShiftBits(x);
    FeedMore(r, b);
    assert forall i :: 0 < i < 16 ==> x[i] == r[i];
    assert x[0] == (r[0] != b[0]);
  }

  lemma FeedMore(r: Register, b: seq<bool>)
    requires b != []
    ensures Feed(r, b) == Feed(Shift(Xor(r, Pad(b[..1]))), b[1..])
  {
  }

  lemma ShiftBits(x: Register)
    ensures Shift(x) == [x[1], x[2], x[3], x[4] != x[0], x[5], x[6], x[7], x[8], x[9], x[10], x[11] != x[0],
                         x[12], x[13], x[14], x[15], x[0]]
  {
    hide ToBits;
    PolyBits();
    assert x[1..] + [false] == [x[1], x[2], x[3], x[4], x[5], x[6], x[7], x[8], x[9], x[10], x[11],
                                x[12], x[13], x[14], x[15], false];
  }

  lemma PolyBits()
    ensures forall i :: 0 <= i < 16 ==> (POLY[i] <==> i in {3, 10, 15})
  {
    hide ToBits;
    DivisorTail();
    assert forall i :: 0 <= i < 16 ==> POLY[i] == DIVISOR[i + 1];
  }

  lemma HexBits(h: Hex)
    ensures var r := FromHex(h);
      && h.d3 == Digit(r[0], r[1], r[2], r[3]) && h.d2 == Digit(r[4], r[5], r[6], r[7])
      && h.d1 == Digit(r[8], r[9], r[10], r[11]) && h.d0 == Digit(r[12], r[13], r[14], r[15])
  {
  }

  lemma ByteOfDigits(b: byte, hi: Digit, lo: Digit)
    requires b == 16 * DigitValue(hi) + DigitValue(lo)
    ensures ByteBits(b) == DigitBits(hi) + DigitBits(lo)
  {
    hide ToBits, Value, Pow2;
    SmallPowers();
    ValueOfFour(hi.a, hi.b, hi.c, hi.d);
    ValueOfFour(lo.a, lo.b, lo.c, lo.d);
    ValueConcat(DigitBits(hi), DigitBits(lo));
    ValueRoundTrip(DigitBits(hi) + DigitBits(lo));
  }

  /** A byte in two digits. */
  lemma ByteTaken(h: Hex, b: byte, hi: Digit, lo: Digit, rest: bytes)
    requires b == 16 * DigitValue(hi) + DigitValue(lo)
    ensures CrcFrom(FromHex(h), [b] + rest) == CrcFrom(FromHex(Taken(Taken(h, hi), lo)), rest)
  {
    hide Feed, FromHex, Taken, Absorb, ByteBits, DigitBits, DigitValue;
    ByteOfDigits(b, hi, lo);
    FeedDigit(h, hi);
    FeedDigit(Taken(h, hi), lo);
    FeedAppend(FromHex(h), DigitBits(hi), DigitBits(lo));
    OneByteFed(FromHex(h), b, rest);
  }

  lemma OneByteFed(r: Register, b: byte, rest: bytes)
    ensures CrcFrom(r, [b] + rest) == CrcFrom(Feed(r, ByteBits(b)), rest)
  {
    hide ByteBits, Feed, Absorb;
    CrcIsBitSerial(r, [b]);
    assert [b][1..] == [] && ByteBits(b) + [] == ByteBits(b);
    assert CrcFrom(Absorb(r, b), []) == Absorb(r, b);
    assert ([b] + rest)[0] == b && ([b] + rest)[1..] == rest;
  }

  lemma EndsAt(data: bytes, h: Hex)
    requires CrcFrom(ONES, data) == FromHex(h)
    ensures Crc16(data) ==
      0x1000 * DigitValue(h.d3) + 0x100 * DigitValue(h.d2) + 0x10 * DigitValue(h.d1) + DigitValue(h.d0)
  {
    hide Value, Pow2, CrcFrom, FromHex, DigitValue, DigitBits;
    SmallPowers();
    var a, b, c, d := DigitBits(h.d3), DigitBits(h.d2), DigitBits(h.d1), DigitBits(h.d0);
    BitsOfDigit(h.d3);
    BitsOfDigit(h.d2);
    BitsOfDigit(h.d1);
    BitsOfDigit(h.d0);
    FourDigits(h);
    ValueConcat(a, b);
    ValueConcat(a + b, c);
    ValueConcat(a + b + c, d);
  }

  lemma BitsOfDigit(d: Digit)
    ensures Value(DigitBits(d)) == DigitValue(d)
  {
    hide Value;
    ValueOfFour(d.a, d.b, d.c, d.d);
  }

  lemma FourDigits(h: Hex)
    ensures FromHex(h) == DigitBits(h.d3) + DigitBits(h.d2) + DigitBits(h.d1) + DigitBits(h.d0)
  {
    hide FromHex, DigitBits;
    HexBits(h);
    var r := FromHex(h);
    FourParts(r);
    DigitOfBits(h.d3, r[..4]);
    DigitOfBits(h.d2, r[4..8]);
    DigitOfBits(h.d1, r[8..12]);
    DigitOfBits(h.d0, r[12..]);
  }

  lemma FourParts(r: Register)
    ensures r == r[..4] + r[4..8] + r[8..12] + r[12..]
  {
  }

  lemma DigitOfBits(d: Digit, b: seq<bool>)
    requires |b| == 4 && d == Digit(b[0], b[1], b[2], b[3])
    ensures DigitBits(d) == b
  {
  }

  lemma StartsAt()
    ensures ONES == FromHex(HexOf(15, 15, 15, 15))
  {
    AllOnes();
  }

  function HexOf(n3: nat, n2: nat, n1: nat, n0: nat): Hex {
    Hex(DigitOf(n3), DigitOf(n2), DigitOf(n1), DigitOf(n0))
  }

  lemma RegisterTable()
    ensures AfterDigits(HexOf(15, 15, 15, 15), 1, 10) == HexOf(2, 9, 11, 1)
  {
    hide Taken, HexOf, DigitOf;
    One();
    Two();
    Three();
    Four();
    Five();
    Six();
    Seven();
    Eight();
    Nine();
    AfterThree(HexOf(15, 15, 15, 15), 1);
    AfterThree(HexOf(5, 11, 12, 14), 4);
    AfterThree(HexOf(2, 14, 15, 4), 7);
  }

  lemma DigitTable()
    ensures DigitOf(0) == Digit(false, false, false, false) && DigitOf(1) == Digit(false, false, false, true)
    ensures DigitOf(2) == Digit(false, false, true, false) && DigitOf(3) == Digit(false, false, true, true)
    ensures DigitOf(4) == Digit(false, true, false, false) && DigitOf(5) == Digit(false, true, false, true)
    ensures DigitOf(6) == Digit(false, true, true, false) && DigitOf(7) == Digit(false, true, true, true)
    ensures DigitOf(8) == Digit(true, false, false, false) && DigitOf(9) == Digit(true, false, false, true)
    ensures DigitOf(10) == Digit(true, false, true, false) && DigitOf(11) == Digit(true, false, true, true)
    ensures DigitOf(12) == Digit(true, true, false, false) && DigitOf(13) == Digit(true, true, false, true)
    ensures DigitOf(14) == Digit(true, true, true, false) && DigitOf(15) == Digit(true, true, true, true)
  {
  }

  /** One text digit leads from one register to another. */
  predicate Leads(h: Hex, i: nat, t: Hex) {
    Taken(Taken(h, DigitOf(3)), DigitOf(i)) == t
  }

  lemma One()
    ensures Leads(HexOf(15, 15, 15, 15), 1, HexOf(12, 7, 8, 2))
  {
    hide DigitOf;
    DigitTable();
  }

  lemma Two()
    ensures Leads(HexOf(12, 7, 8, 2), 2, HexOf(3, 13, 11, 10))
  {
    hide DigitOf;
    DigitTable();
  }

  lemma Three()
    ensures Leads(HexOf(3, 13, 11, 10), 3, HexOf(5, 11, 12, 14))
  {
    hide DigitOf;
    DigitTable();
  }

  lemma Four()
    ensures Leads(HexOf(5, 11, 12, 14), 4, HexOf(5, 3, 4, 9))
  {
    hide DigitOf;
    DigitTable();
  }

  lemma Five()
    ensures Leads(HexOf(5, 3, 4, 9), 5, HexOf(4, 5, 6, 0))
  {
    hide DigitOf;
    DigitTable();
  }

  lemma Six()
    ensures Leads(HexOf(4, 5, 6, 0), 6, HexOf(2, 14, 15, 4))
  {
    hide DigitOf;
    DigitTable();
  }

  lemma Seven()
    ensures Leads(HexOf(2, 14, 15, 4), 7, HexOf(7, 7, 1, 8))
  {
    hide DigitOf;
    DigitTable();
  }

  lemma Eight()
    ensures Leads(HexOf(7, 7, 1, 8), 8, HexOf(10, 1, 2, 11))
  {
    hide DigitOf;
    DigitTable();
  }

  lemma Nine()
    ensures Leads(HexOf(10, 1, 2, 11), 9, HexOf(2, 9, 11, 1))
  {
    hide DigitOf;
    DigitTable();
  }

  lemma AfterThree(h: Hex, i: nat)
    requires i <= 7
    ensures AfterDigits(h, i, 10) ==
      var a := Taken(Taken(h, DigitOf(3)), DigitOf(i));
      var b := Taken(Taken(a, DigitOf(3)), DigitOf(i + 1));
      AfterDigits(Taken(Taken(b, DigitOf(3)), DigitOf(i + 2)), i + 3, 10)
  {
    hide Taken, DigitOf;
    AfterOne(h, i);
    var a := Taken(Taken(h, DigitOf(3)), DigitOf(i));
    AfterOne(a, i + 1);
    AfterOne(Taken(Taken(a, DigitOf(3)), DigitOf(i + 1)), i + 2);
  }

  lemma AfterOne(h: Hex, i: nat)
    requires i < 10
    ensures AfterDigits(h, i, 10) == AfterDigits(Taken(Taken(h, DigitOf(3)), DigitOf(i)), i + 1, 10)
  {
    hide Taken, DigitOf;
  }

  lemma ValueOfHex(n3: nat, n2: nat, n1: nat, n0: nat)
    requires n3 < 16 && n2 < 16 && n1 < 16 && n0 < 16
    ensures var h := HexOf(n3, n2, n1, n0);
      && DigitValue(h.d3) == n3 && DigitValue(h.d2) == n2 && DigitValue(h.d1) == n1 && DigitValue(h.d0) == n0
  {
    hide DigitValue, DigitOf;
    DigitOfValue(n3);
    DigitOfValue(n2);
    DigitOfValue(n1);
    DigitOfValue(n0);
  }

  lemma CrcOfText()
    ensures Crc16(Digits(1, 10)) == 0x29B1
  {
    hide FromHex, AfterDigits, Digits, CrcFrom, Crc16, HexOf, DigitValue;
    StartsAt();
    RegisterTable();
    DigitsTaken(HexOf(15, 15, 15, 15), 1, 10);
    EndsAt(Digits(1, 10), HexOf(2, 9, 11, 1));
    ValueOfHex(2, 9, 11, 1);
  }

  lemma CrcOfNothing()
    ensures Crc16([]) == 0xFFFF
  {
    hide FromHex, CrcFrom, Crc16, HexOf, DigitValue;
    StartsAt();
    NothingTaken(ONES);
    EndsAt([], HexOf(15, 15, 15, 15));
    ValueOfHex(15, 15, 15, 15);
  }

  lemma CrcOfZero()
    ensures Crc16([0x00]) == 0xE1F0
  {
    var h, zero := HexOf(15, 15, 15, 15), DigitOf(0);
    hide DigitOf;
    DigitTable();
    assert Taken(Taken(h, zero), zero) == HexOf(14, 1, 15, 0);
    DigitOfValue(0);
    hide FromHex, CrcFrom, Crc16, HexOf, DigitValue, Taken;
    StartsAt();
    ByteTaken(h, 0x00, zero, zero, []);
    NothingTaken(FromHex(HexOf(14, 1, 15, 0)));
    assert [0x00 as byte] + [] == [0x00];
    EndsAt([0x00], HexOf(14, 1, 15, 0));
    ValueOfHex(14, 1, 15, 0);
  }

  /** The check values of this CRC: of nothing, of the payload of an acknowledgement of number 0, and of the
      text of the digits one to nine. */
  lemma CheckValues()
    ensures Crc16([]) == 0xFFFF && Crc16([0x00]) == 0xE1F0
    ensures Crc16([0x31, 0x32, 0x33, 0x34, 0x35, 0x36, 0x37, 0x38, 0x39]) == 0x29B1
  {
    hide Crc16;
    CrcOfNothing();
    CrcOfZero();
    CrcOfText();
    assert [0x31, 0x32, 0x33, 0x34, 0x35, 0x36, 0x37, 0x38, 0x39] == Digits(1, 10) by {
      assert Digits(7, 10) == [0x37, 0x38, 0x39];
      assert Digits(4, 10) == [0x34, 0x35, 0x36] + Digits(7, 10);
      assert Digits(1, 10) == [0x31, 0x32, 0x33] + Digits(4, 10);
    }
  }

  /** The digits from `i` up to, but not including, `n`, as text. */
  function Digits(i: nat, n: nat): bytes
    requires i <= n <= 10
    decreases n - i
  {
    if i == n then [] else [0x30 + i] + Digits(i + 1, n)
  }

  function AfterDigits(h: Hex, i: nat, n: nat): Hex
    requires i <= n <= 10
    decreases n - i
  {
    if i == n then h else AfterDigits(Taken(Taken(h, DigitOf(3)), DigitOf(i)), i + 1, n)
  }

  lemma {:induction false} DigitsTaken(h: Hex, i: nat, n: nat)
    requires i <= n <= 10
    ensures CrcFrom(FromHex(h), Digits(i, n)) == FromHex(AfterDigits(h, i, n))
    decreases n - i
  {
    hide Taken, FromHex, CrcFrom;
    if i == n {
      NothingTaken(FromHex(h));
    } else {
      DigitOfValue(i);
      DigitOfValue(3);
      ByteTaken(h, 0x30 + i, DigitOf(3), DigitOf(i), Digits(i + 1, n));
      DigitsTaken(Taken(Taken(h, DigitOf(3)), DigitOf(i)), i + 1, n);
    }
  }

  lemma NothingTaken(r: Register)
    ensures CrcFrom(r, []) == r
  {
  }

  lemma DigitOfValue(n: nat)
    requires n < 16
    ensures DigitValue(DigitOf(n)) == n
  {
  }
}
