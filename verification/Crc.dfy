/** CRC-16-CCITT as both ends compute it, and what it detects
    (pc/src/frame/protocol.py, device/src/factory_frame.c).

    The specification keeps the register as sixteen booleans, most significant bit first; the two
    methods compute on integers, as the programs do, and are proved against it. */
module Crc {
  import opened Bytes
  import opened BitStrings

  type Register = r: seq<bool> | |r| == 16 witness [false, false, false, false, false, false, false, false,
                                                     false, false, false, false, false, false, false, false]

  const ONES: Register := ToBits(0xFFFF, 16)
  const POLY: Register := ToBits(0x1021, 16)

  function Zeros(n: nat): (r: seq<bool>)
    ensures |r| == n && forall i :: 0 <= i < n ==> !r[i]
  {
    seq(n, i => false)
  }

  /** One turn of the inner loop. */
  function Shift(r: Register): Register {
    if r[0] then Xor(r[1..] + [false], POLY) else r[1..] + [false]
  }

  function Shifts(r: Register, n: nat): Register
    decreases n
  {
    if n == 0 then r else Shifts(Shift(r), n - 1)
  }

  /** The bits of a byte, most significant first. */
  function ByteBits(b: byte): (r: seq<bool>)
    ensures |r| == 8
  {
    ToBits(b, 8)
  }

  /** One turn of the outer loop. */
  function Absorb(r: Register, b: byte): Register {
    Shifts(Xor(r, ByteBits(b) + Zeros(8)), 8)
  }

  function CrcFrom(r: Register, data: bytes): Register
    decreases data
  {
    if data == [] then r else CrcFrom(Absorb(r, data[0]), data[1..])
  }

  function Crc16(data: bytes): u16 {
    ValueBound(CrcFrom(ONES, data));
    SmallPowers();
    Value(CrcFrom(ONES, data))
  }

  lemma ByteBitsRoundTrip(b: byte)
    ensures Value(ByteBits(b)) == b
  {
    SmallPowers();
    ToBitsRoundTrip(b, 8);
  }

  lemma {:induction false} CrcFromSnoc(r: Register, data: bytes, b: byte)
    ensures CrcFrom(r, data + [b]) == Absorb(CrcFrom(r, data), b)
    decreases data
  {
    if data != [] {
      assert (data + [b])[1..] == data[1..] + [b];
      CrcFromSnoc(Absorb(r, data[0]), data[1..], b);
    } else {
      assert (data + [b])[1..] == [];
    }
  }

  lemma {:induction false} ShiftsSnoc(r: Register, n: nat)
    ensures Shifts(r, n + 1) == Shift(Shifts(r, n))
    decreases n
  {
    if n > 0 {
      ShiftsSnoc(Shift(r), n - 1);
    }
  }

  // ---------------------------------------------------------------------------
  // The two implementations

  /** A turn of the inner loop on integers: doubling, and a conditional xor, cut to sixteen bits. */
  lemma IntegerTurn(c: nat)
    ensures c / 0x8000 % 2 == 1 ==> ToBits(XorNat(2 * c, 0x1021) % 0x1_0000, 16) == Shift(ToBits(c, 16))
    ensures c / 0x8000 % 2 == 0 ==> ToBits(2 * c % 0x1_0000, 16) == Shift(ToBits(c, 16))
  {
    hide ToBits, XorNat, Pow2;
    Doubled(c);
    XorNatBits(2 * c, 0x1021, 16);
    CutTo16(2 * c);
    CutTo16(XorNat(2 * c, 0x1021));
  }

  lemma Doubled(c: nat)
    ensures ToBits(2 * c, 16) == ToBits(c, 16)[1..] + [false]
    ensures ToBits(c, 16)[0] <==> c / 0x8000 % 2 == 1
  {
    hide ToBits;
    SmallPowers();
    ToBitsTop(c, 16);
    AppendZero(c, 15);
  }

  lemma AppendZero(c: nat, width: nat)
    ensures ToBits(2 * c, width + 1) == ToBits(c, width) + [false]
  {
    assert 2 * c / 2 == c;
  }

  lemma CutTo16(n: nat)
    ensures ToBits(n % 0x1_0000, 16) == ToBits(n, 16)
  {
    hide ToBits;
    SmallPowers();
    ToBitsMod(n, 16);
  }

  lemma {:induction false} ShiftedLeft(n: nat, k: nat, width: nat)
    ensures ToBits(n * Pow2(k), width + k) == ToBits(n, width) + Zeros(k)
    decreases k
  {
    if k == 0 {
      assert Zeros(0) == [];
    } else {
      var m := n * Pow2(k - 1);
      assert n * Pow2(k) == 2 * m by {
        MulTwo(n, Pow2(k - 1));
      }
      ShiftedLeft(n, k - 1, width);
      assert Zeros(k - 1) + [false] == Zeros(k);
    }
  }

  /** Both programs xor the next byte into the top half. */
  lemma IntegerXor(c: nat, b: byte)
    ensures ToBits(XorNat(c, b * 256), 16) == Xor(ToBits(c, 16), ByteBits(b) + Zeros(8))
  {
    SmallPowers();
    ShiftedLeft(b, 8, 8);
    XorNatBits(c, b * 256, 16);
  }

  lemma IntegerXorBound(c: u16, b: byte)
    ensures XorNat(c, b * 256) < 0x1_0000
  {
    XorNatBound(c, b * 256, 16);
    SmallPowers();
  }

  lemma {:induction false} XorNatBound(m: nat, n: nat, width: nat)
    requires m < Pow2(width) && n < Pow2(width)
    ensures XorNat(m, n) < Pow2(width)
    decreases width
  {
    if m != 0 && n != 0 {
      XorNatBound(m / 2, n / 2, width - 1);
    }
  }

  lemma NumberOf(c: u16)
    ensures Value(ToBits(c, 16)) == c
  {
    SmallPowers();
    ToBitsRoundTrip(c, 16);
  }

  /** The host's `crc16_ccitt`: the register is an unbounded integer, masked after every turn. */
  method HostCrc16(data: bytes) returns (crc: nat)
    ensures crc == Crc16(data)
  {
    hide ToBits, Shift, XorNat;
    crc := 0xFFFF;
    for i := 0 to |data|
      invariant crc < 0x1_0000 && ToBits(crc, 16) == CrcFrom(ONES, data[..i])
    {
      IntegerXor(crc, data[i]);
      var b: nat := data[i];
      crc := XorNat(crc, b * 256);
      ghost var start := ToBits(crc, 16);
      for j := 0 to 8
        invariant ToBits(crc, 16) == Shifts(start, j)
        invariant j == 8 ==> crc < 0x1_0000
      {
        IntegerTurn(crc);
        ShiftsSnoc(start, j);
        if crc / 0x8000 % 2 == 1 {
          crc := XorNat(2 * crc, 0x1021) % 0x1_0000;
        } else {
          crc := 2 * crc % 0x1_0000;
        }
      }
      CrcFromSnoc(ONES, data[..i], data[i]);
      assert data[..i + 1] == data[..i] + [data[i]];
    }
    assert data[..|data|] == data;
    NumberOf(crc);
  }

  /** The device's `crc16_ccitt`, over `len` bytes of a buffer: the register is a `uint16_t`. */
  method DeviceCrc16(data: array<byte>, start: nat, len: nat) returns (crc: u16)
    requires start + len <= data.Length
    ensures crc == Crc16(data[start..start + len])
  {
    hide ToBits, Shift, XorNat;
    crc := 0xFFFF;
    for i := 0 to len
      invariant ToBits(crc, 16) == CrcFrom(ONES, data[start..start + i])
    {
      IntegerXor(crc, data[start + i]);
      IntegerXorBound(crc, data[start + i]);
      var b: nat := data[start + i];
      crc := XorNat(crc, b * 256);
      ghost var first := ToBits(crc, 16);
      for j := 0 to 8
        invariant ToBits(crc, 16) == Shifts(first, j)
      {
        IntegerTurn(crc);
        ShiftsSnoc(first, j);
        if crc / 0x8000 % 2 == 1 {
          crc := XorNat(2 * crc, 0x1021) % 0x1_0000;
        } else {
          crc := 2 * crc % 0x1_0000;
        }
      }
      CrcFromSnoc(ONES, data[start..start + i], data[start + i]);
      assert data[start..start + i + 1] == data[start..start + i] + [data[start + i]];
    }
    NumberOf(crc);
  }

  // ---------------------------------------------------------------------------
  // The same register fed one bit at a time

  /** The bits of a byte string, in the order in which the CRC takes them. */
  function Bits(data: bytes): (r: seq<bool>)
    ensures |r| == 8 * |data|
  {
    if data == [] then [] else ByteBits(data[0]) + Bits(data[1..])
  }

  /** At most sixteen bits written into an empty register from the top down. */
  function Pad(bits: seq<bool>): Register
    requires |bits| <= 16
  {
    bits + Zeros(16 - |bits|)
  }

  function Feed(r: Register, bits: seq<bool>): Register
    decreases bits
  {
    if bits == [] then r else Feed(Shift(Xor(r, Pad(bits[..1]))), bits[1..])
  }

  lemma ShiftLinear(x: Register, y: Register)
    ensures Shift(Xor(x, y)) == Xor(Shift(x), Shift(y))
  {
  }

  /** Feeding up to sixteen bits is xoring them in at the top and then shifting. */
  lemma {:induction false} FeedIsPadThenShift(r: Register, bits: seq<bool>)
    requires |bits| <= 16
    ensures Feed(r, bits) == Shifts(Xor(r, Pad(bits)), |bits|)
    decreases bits
  {
    if bits == [] {
      assert Xor(r, Pad(bits)) == r;
    } else {
      var x, y := Xor(r, Pad(bits[..1])), [false] + bits[1..] + Zeros(16 - |bits|);
      assert Xor(r, Pad(bits)) == Xor(x, y);
      ShiftLinear(x, y);
      assert Shift(y) == Pad(bits[1..]);
      FeedIsPadThenShift(Shift(x), bits[1..]);
    }
  }

  lemma {:induction false} FeedAppend(r: Register, a: seq<bool>, b: seq<bool>)
    ensures Feed(r, a + b) == Feed(Feed(r, a), b)
    decreases a
  {
    if a == [] {
      assert a + b == b;
    } else {
      assert (a + b)[1..] == a[1..] + b && (a + b)[..1] == a[..1];
      FeedAppend(Shift(Xor(r, Pad(a[..1]))), a[1..], b);
    }
  }

  /** The byte-wise computation of both programs is the bit-serial register. */
  lemma {:induction false} CrcIsBitSerial(r: Register, data: bytes)
    ensures CrcFrom(r, data) == Feed(r, Bits(data))
    decreases data
  {
    if data != [] {
      FeedIsPadThenShift(r, ByteBits(data[0]));
      FeedAppend(r, ByteBits(data[0]), Bits(data[1..]));
      CrcIsBitSerial(Absorb(r, data[0]), data[1..]);
    }
  }

  // ---------------------------------------------------------------------------
  // Burst errors

  predicate Silent(e: seq<bool>) {
    forall i :: 0 <= i < |e| ==> !e[i]
  }

  /** The register is linear: the xor of two runs is the run of the xor. */
  lemma {:induction false} FeedLinear(r: Register, s: Register, a: seq<bool>, b: seq<bool>)
    requires |a| == |b|
    ensures Xor(Feed(r, a), Feed(s, b)) == Feed(Xor(r, s), Xor(a, b))
    decreases a
  {
    if a != [] {
      var x, y := Xor(r, Pad(a[..1])), Xor(s, Pad(b[..1]));
      ShiftLinear(x, y);
      assert Xor(x, y) == Xor(Xor(r, s), Pad(Xor(a, b)[..1]));
      assert Xor(a, b)[1..] == Xor(a[1..], b[1..]);
      FeedLinear(Shift(x), Shift(y), a[1..], b[1..]);
    }
  }

  lemma ShiftSilent(r: Register)
    ensures Silent(Shift(r)) <==> Silent(r)
  {
    if r[0] {
      assert POLY[15] by {
        assert 0x1021 % 2 == 1;
      }
      assert Shift(r)[15];
    } else if Silent(Shift(r)) {
      assert forall i :: 0 < i < 16 ==> r[i] == Shift(r)[i - 1];
    }
  }

  lemma {:induction false} ShiftsSilent(r: Register, n: nat)
    ensures Silent(Shifts(r, n)) <==> Silent(r)
    decreases n
  {
    if n > 0 {
      ShiftSilent(r);
      ShiftsSilent(Shift(r), n - 1);
    }
  }

  /** A register that differs stays different while equal bits follow, and an equal one stays equal. */
  lemma {:induction false} FeedSilent(r: Register, e: seq<bool>)
    requires Silent(e)
    ensures Silent(Feed(r, e)) <==> Silent(r)
    decreases e
  {
    if e != [] {
      assert Xor(r, Pad(e[..1])) == r;
      ShiftSilent(r);
      FeedSilent(Shift(r), e[1..]);
    }
  }

  lemma FeedBurst(r: Register, b: seq<bool>)
    requires Silent(r) && |b| <= 16 && !Silent(b)
    ensures !Silent(Feed(r, b))
  {
    FeedIsPadThenShift(r, b);
    assert Xor(r, Pad(b)) == Pad(b);
    var i :| 0 <= i < |b| && b[i];
    assert Pad(b)[i];
    ShiftsSilent(Pad(b), |b|);
  }

  lemma WindowParts(e: seq<bool>, lo: nat, width: nat)
    requires lo + width <= |e| && !Silent(e)
    requires forall i :: 0 <= i < |e| && e[i] ==> lo <= i < lo + width
    ensures Silent(Zeros(16)) && Silent(e[..lo]) && !Silent(e[lo..lo + width]) && Silent(e[lo + width..])
  {
    var i :| 0 <= i < |e| && e[i];
    assert e[lo..lo + width][i - lo];
  }

  /** A difference confined to a window of at most sixteen bits reaches the final register. */
  lemma DifferenceSurvives(e: seq<bool>, lo: nat, width: nat)
    requires width <= 16 && lo + width <= |e| && !Silent(e)
    requires forall i :: 0 <= i < |e| && e[i] ==> lo <= i < lo + width
    ensures !Silent(Feed(Zeros(16), e))
  {
    hide Feed, Silent;
    var a, b, z := e[..lo], e[lo..lo + width], e[lo + width..];
    WindowParts(e, lo, width);
    var r := Feed(Zeros(16), a);
    FeedSilent(Zeros(16), a);
    FeedBurst(r, b);
    FeedSilent(Feed(r, b), z);
    assert e == a + (b + z);
    FeedAppend(Zeros(16), a, b + z);
    FeedAppend(r, b, z);
  }

  lemma {:induction false} BitsInjective(p: bytes, q: bytes)
    requires |p| == |q| && Bits(p) == Bits(q)
    ensures p == q
  {
    if p != [] {
      assert ByteBits(p[0]) == Bits(p)[..8] && ByteBits(q[0]) == Bits(q)[..8];
      assert Bits(p[1..]) == Bits(p)[8..] && Bits(q[1..]) == Bits(q)[8..];
      ByteBitsRoundTrip(p[0]);
      ByteBitsRoundTrip(q[0]);
      BitsInjective(p[1..], q[1..]);
    }
  }

  /** Two payloads are a burst apart when all the bits in which they differ lie in one window of
      `width` consecutive bits starting at bit `lo`. */
  predicate BurstApart(p: bytes, q: bytes, lo: nat, width: nat) {
    && |p| == |q|
    && lo + width <= 8 * |p|
    && forall i :: 0 <= i < 8 * |p| && Bits(p)[i] != Bits(q)[i] ==> lo <= i < lo + width
  }

  /** Every burst of at most sixteen bits changes the CRC, whatever the length of the payload. */
  lemma BurstChangesCrc(p: bytes, q: bytes, lo: nat, width: nat)
    requires width <= 16 && BurstApart(p, q, lo, width)
    ensures p != q ==> Crc16(p) != Crc16(q)
  {
    hide Feed, CrcFrom, Bits, Value;
    if p != q {
      var e := Xor(Bits(p), Bits(q));
      if Silent(e) {
        assert Bits(p) == Bits(q);
        BitsInjective(p, q);
      }
      DifferenceSurvives(e, lo, width);
      CrcIsBitSerial(ONES, p);
      CrcIsBitSerial(ONES, q);
      FeedLinear(ONES, ONES, Bits(p), Bits(q));
      assert Xor(ONES, ONES) == Zeros(16);
      if Crc16(p) == Crc16(q) {
        ValueInjective(CrcFrom(ONES, p), CrcFrom(ONES, q));
      }
    }
  }

  // ---------------------------------------------------------------------------
  // What the register computes: long division of polynomials over GF(2)

  /** x^16 + x^12 + x^5 + 1, highest power first. */
  const DIVISOR: seq<bool> :=
    [true, false, false, false, true, false, false, false, false, false, false, true, false, false, false, false, true]

  /** The remainder of the division: as long as more than sixteen bits are left, the divisor is subtracted
      under a leading one, and the leading bit goes. */
  function Remainder(dividend: seq<bool>): (r: seq<bool>)
    requires |dividend| >= 16
    ensures |r| == 16
    decreases |dividend|
  {
    if |dividend| == 16 then dividend
    else if dividend[0] then Remainder(Xor(dividend[..17], DIVISOR)[1..] + dividend[17..])
    else Remainder(dividend[1..])
  }

  /** The message with sixteen zeros behind it and its first sixteen bits complemented. */
  function Dividend(data: bytes): (r: seq<bool>)
    ensures |r| == 8 * |data| + 16
  {
    var bits := Bits(data) + Zeros(16);
    seq(|bits|, i requires 0 <= i < |bits| => if i < 16 then !bits[i] else bits[i])
  }

  /** A register laid over the first sixteen bits. */
  function Over(r: Register, bits: seq<bool>): (s: seq<bool>)
    requires |bits| >= 16
    ensures |s| == |bits|
  {
    Xor(r, bits[..16]) + bits[16..]
  }

  lemma LowNibble(n: nat, width: nat)
    ensures ToBits(n, width + 4) == ToBits(n / 16, width) + [n / 8 % 2 == 1, n / 4 % 2 == 1, n / 2 % 2 == 1, n % 2 == 1]
  {
    hide ToBits;
    ToBitsStep(n, width + 4);
    ToBitsStep(n / 2, width + 3);
    ToBitsStep(n / 4, width + 2);
    ToBitsStep(n / 8, width + 1);
    assert n / 2 / 2 == n / 4 && n / 4 / 2 == n / 8 && n / 8 / 2 == n / 16;
  }

  lemma DivisorTail()
    ensures |DIVISOR| == 17 && DIVISOR[0] && DIVISOR[1..] == POLY
  {
    hide ToBits;
    LowNibble(0x1021, 12);
    LowNibble(0x102, 8);
    LowNibble(0x10, 4);
    LowNibble(0x1, 0);
  }

  lemma XorTail(a: seq<bool>, b: seq<bool>)
    requires |a| == |b| >= 1
    ensures Xor(a, b)[1..] == Xor(a[1..], b[1..])
  {
  }

  lemma XorThree(a: seq<bool>, b: seq<bool>, c: seq<bool>)
    requires |a| == |b| == |c|
    ensures Xor(Xor(a, b), c) == Xor(Xor(a, c), b)
  {
  }

  /** What is left of the overlaid bits behind the first. */
  lemma OverTail(r: Register, all: seq<bool>)
    requires |all| >= 17
    ensures var d := Over(r, all);
      && d[0] == (r[0] != all[0]) && d[17..] == all[17..] && d[1..] == d[1..17] + d[17..]
      && d[1..17] == Xor(r[1..] + [false], all[1..17])
  {
    var d, y := Over(r, all), r[1..] + [false];
    assert forall i :: 0 <= i < 15 ==> y[i] == r[i + 1];
    assert forall i :: 0 <= i < 16 ==> d[i] == (r[i] != all[i]);
    assert forall i :: 0 <= i < 16 ==> d[1..17][i] == (y[i] != all[1..17][i]);
  }

  lemma PadTail(r: Register, b: seq<bool>)
    requires |b| == 1
    ensures Xor(r, Pad(b))[0] == (r[0] != b[0]) && Xor(r, Pad(b))[1..] == r[1..]
  {
  }

  /** One bit fed is one step of the division. */
  lemma DivisionStep(r: Register, bits: seq<bool>)
    requires bits != []
    ensures Remainder(Over(r, bits + Zeros(16))) ==
      Remainder(Over(Shift(Xor(r, Pad(bits[..1]))), bits[1..] + Zeros(16)))
  {
    hide Remainder, Xor, Over, Pad;
    var all, rest := bits + Zeros(16), bits[1..] + Zeros(16);
    var d, x := Over(r, all), Xor(r, Pad(bits[..1]));
    RestOf(bits);
    OverTail(r, all);
    PadTail(r, bits[..1]);
    DivisorTail();
    var y := x[1..] + [false];
    OverIs(Shift(x), rest);
    if d[0] {
      XorTail(d[..17], DIVISOR);
      FrontTail(d);
      XorThree(y, rest[..16], POLY);
    }
    RemainderStep(d);
  }

  lemma RestOf(bits: seq<bool>)
    requires bits != []
    ensures var all, rest := bits + Zeros(16), bits[1..] + Zeros(16);
      all[0] == bits[0] && all[1..] == rest && all[1..17] == rest[..16] && all[17..] == rest[16..]
  {
  }

  lemma FrontTail(d: seq<bool>)
    requires |d| >= 17
    ensures d[..17][1..] == d[1..17]
  {
  }

  lemma OverIs(r: Register, bits: seq<bool>)
    requires |bits| >= 16
    ensures Over(r, bits) == Xor(r, bits[..16]) + bits[16..]
  {
  }

  lemma RemainderStep(d: seq<bool>)
    requires |d| > 16
    ensures |DIVISOR| == 17
    ensures Remainder(d) == Remainder(if d[0] then Xor(d[..17], DIVISOR)[1..] + d[17..] else d[1..])
  {
  }

  lemma {:induction false} FeedIsDivision(r: Register, bits: seq<bool>)
    ensures Feed(r, bits) == Remainder(Over(r, bits + Zeros(16)))
    decreases bits
  {
    hide Remainder;
    if bits == [] {
      assert Over(r, [] + Zeros(16)) == r;
      RemainderOfShort(r);
    } else {
      DivisionStep(r, bits);
      FeedIsDivision(Shift(Xor(r, Pad(bits[..1]))), bits[1..]);
    }
  }

  lemma RemainderOfShort(d: seq<bool>)
    requires |d| == 16
    ensures Remainder(d) == d
  {
  }

  /** The CRC of every payload is that remainder. */
  lemma CrcIsRemainder(data: bytes)
    ensures Crc16(data) == Value(Remainder(Dividend(data)))
  {
    hide Remainder, Feed, CrcFrom, Bits, Value, Over, Dividend;
    CrcIsBitSerial(ONES, data);
    FeedIsDivision(ONES, Bits(data));
    OverOnes(data);
  }

  lemma OverOnes(data: bytes)
    ensures Over(ONES, Bits(data) + Zeros(16)) == Dividend(data)
  {
    hide Bits, ToBits;
    AllOnes();
  }

  lemma AllOnes()
    ensures forall i :: 0 <= i < 16 ==> ONES[i]
  {
    hide ToBits;
    LowNibble(0xFFFF, 12);
    LowNibble(0xFFF, 8);
    LowNibble(0xFF, 4);
    LowNibble(0xF, 0);
  }
}
