/** Onboarding codes: the QR text and the manual pairing code of sections 5.1.3 and 5.1.4 of the Matter
    Core Specification (pc/src/chip/SetupPayload.py). The check digit is an arbitrary function of the
    digits before it. */
module SetupPayload {
  import opened Bytes
  import opened BitStrings
  import Base38

  /** A payload object; a field is None where the source stores None. */
  datatype Payload = Payload(
    longDiscriminator: Option<nat>, shortDiscriminator: nat, pincode: nat, discovery: Option<nat>,
    flow: nat, vid: Option<nat>, pid: Option<nat>)

  const STANDARD: nat := 0
  const CUSTOM: nat := 2

  /** `SetupPayload(discriminator, pincode, rendezvous, flow, vid, pid)`. */
  function Make(discriminator: nat, pincode: nat, rendezvous: nat, flow: nat, vid: nat, pid: nat): Payload {
    Payload(Some(discriminator), discriminator / 256, pincode, Some(rendezvous), flow, Some(vid), Some(pid))
  }

  datatype CodeError = FieldRange | TextFault | TooShort | UnknownFlow

  predicate FitsBits(v: Option<nat>, width: nat) {
    v.Some? && v.value < Pow2(width)
  }

  // ---------------------------------------------------------------------------
  // Bit strings and bytes

  function BitsToBytes(bits: seq<bool>): (r: bytes)
    requires |bits| % 8 == 0
    ensures |r| == |bits| / 8
  {
    if bits == [] then []
    else
      ByteValue(bits[..8]);
      [Value(bits[..8])] + BitsToBytes(bits[8..])
  }

  lemma ByteValue(bits: seq<bool>)
    requires |bits| == 8
    ensures Value(bits) < 256
  {
    ValueBound(bits);
    SmallPowers();
  }

  function BytesToBits(b: bytes): (r: seq<bool>)
    ensures |r| == 8 * |b|
  {
    if b == [] then [] else ToBits(b[0], 8) + BytesToBits(b[1..])
  }

  lemma {:induction false} BitsRoundTrip(bits: seq<bool>)
    requires |bits| % 8 == 0
    ensures BytesToBits(BitsToBytes(bits)) == bits
  {
    if bits != [] {
      BitsRoundTrip(bits[8..]);
      ValueRoundTrip(bits[..8]);
      var b := BitsToBytes(bits);
      assert b[1..] == BitsToBytes(bits[8..]);
      assert bits == bits[..8] + bits[8..];
    }
  }

  function Reversed(b: bytes): (r: bytes)
    ensures |r| == |b|
  {
    if b == [] then [] else Reversed(b[1..]) + [b[0]]
  }

  lemma {:induction false} ReversedSnoc(b: bytes, last: byte)
    ensures Reversed(b + [last]) == [last] + Reversed(b)
  {
    if b == [] {
      assert ([] + [last])[1..] == [];
    } else {
      assert (b + [last])[1..] == b[1..] + [last];
      ReversedSnoc(b[1..], last);
    }
  }

  lemma {:induction false} ReversedTwice(b: bytes)
    ensures Reversed(Reversed(b)) == b
  {
    if b != [] {
      ReversedTwice(b[1..]);
      ReversedSnoc(Reversed(b[1..]), b[0]);
      assert b == [b[0]] + b[1..];
    }
  }

  lemma Peel<T>(front: seq<T>, part: seq<T>, back: seq<T>, all: seq<T>)
    requires all == front + part + back
    ensures all == front + (part + back) && all[|front|..][..|part|] == part
  {
  }

  /** Eight strings in a row, each found at its place. */
  lemma EightParts<T>(a: seq<T>, b: seq<T>, c: seq<T>, d: seq<T>, e: seq<T>, f: seq<T>, g: seq<T>, h: seq<T>,
                      all: seq<T>)
    requires all == a + b + c + d + e + f + g + h
    ensures all[|a|..][..|b|] == b && all[|a + b|..][..|c|] == c && all[|a + b + c|..][..|d|] == d
    ensures all[|a + b + c + d|..][..|e|] == e && all[|a + b + c + d + e|..][..|f|] == f
    ensures all[|a + b + c + d + e + f|..][..|g|] == g
  {
    Peel(a + b + c + d + e + f, g, h, all);
    Peel(a + b + c + d + e, f, g + h, all);
    Peel(a + b + c + d, e, f + (g + h), all);
    Peel(a + b + c, d, e + (f + (g + h)), all);
    Peel(a + b, c, d + (e + (f + (g + h))), all);
    Peel(a, b, c + (d + (e + (f + (g + h)))), all);
  }

  // ---------------------------------------------------------------------------
  // The QR text

  /** The fields of the QR layout fit their widths: 27, 12, 8, 2, 16 and 16 bits. */
  predicate QrInRange(p: Payload) {
    && p.pincode < Pow2(27) && FitsBits(p.longDiscriminator, 12) && FitsBits(p.discovery, 8)
    && p.flow < Pow2(2) && FitsBits(p.pid, 16) && FitsBits(p.vid, 16)
  }

  /** The 88 bits of the layout: padding, pincode, discriminator, discovery, flow, pid, vid, version. */
  function QrBits(p: Payload): (r: seq<bool>)
    requires QrInRange(p)
    ensures |r| == 88
  {
    ToBits(0, 4) + ToBits(p.pincode, 27) + ToBits(p.longDiscriminator.value, 12)
    + ToBits(p.discovery.value, 8) + ToBits(p.flow, 2) + ToBits(p.pid.value, 16) + ToBits(p.vid.value, 16)
    + ToBits(0, 3)
  }

  function GenerateQrCode(p: Payload): Result<string, CodeError> {
    if !QrInRange(p) then Err(FieldRange)
    else Ok("MT:" + Base38.Encoded(Reversed(BitsToBytes(QrBits(p)))))
  }

  function ParseQrCode(text: string): Result<Payload, CodeError> {
    var decoded := Base38.Decoded(if |text| < 3 then [] else text[3..]);
    if decoded.Err? then Err(TextFault)
    else
      var bits := BytesToBits(Reversed(decoded.value));
      if |bits| < 88 then Err(TooShort)
      else if Value(bits[51..53]) > 2 then Err(UnknownFlow)
      else Ok(Make(Value(bits[31..43]), Value(bits[4..31]), Value(bits[43..51]), Value(bits[51..53]),
                   Value(bits[69..85]), Value(bits[53..69])))
  }

  lemma QrFields(p: Payload)
    requires QrInRange(p)
    ensures var bits := QrBits(p);
      && Value(bits[4..31]) == p.pincode && Value(bits[31..43]) == p.longDiscriminator.value
      && Value(bits[43..51]) == p.discovery.value && Value(bits[51..53]) == p.flow
      && Value(bits[53..69]) == p.pid.value && Value(bits[69..85]) == p.vid.value
  {
    hide ToBits, Value, Pow2;
    var bits := QrBits(p);
    EightParts(ToBits(0, 4), ToBits(p.pincode, 27), ToBits(p.longDiscriminator.value, 12), ToBits(p.discovery.value, 8),
               ToBits(p.flow, 2), ToBits(p.pid.value, 16), ToBits(p.vid.value, 16), ToBits(0, 3), bits);
    ToBitsRoundTrip(p.pincode, 27);
    ToBitsRoundTrip(p.longDiscriminator.value, 12);
    ToBitsRoundTrip(p.discovery.value, 8);
    ToBitsRoundTrip(p.flow, 2);
    ToBitsRoundTrip(p.pid.value, 16);
    ToBitsRoundTrip(p.vid.value, 16);
    assert bits[4..][..27] == bits[4..31] && bits[31..][..12] == bits[31..43] && bits[43..][..8] == bits[43..51];
    assert bits[51..][..2] == bits[51..53] && bits[53..][..16] == bits[53..69] && bits[69..][..16] == bits[69..85];
  }

  /** Parsing the generated QR text gives back every field, for every payload object the constructor
      makes whose fields fit and whose flow is a known one; the text always has 22 characters. */
  lemma QrRoundTrip(discriminator: nat, pincode: nat, rendezvous: nat, flow: nat, vid: nat, pid: nat)
    ensures var p := Make(discriminator, pincode, rendezvous, flow, vid, pid);
      && (GenerateQrCode(p).Ok? <==>
            discriminator < Pow2(12) && pincode < Pow2(27) && rendezvous < Pow2(8) && flow < 4
            && vid < Pow2(16) && pid < Pow2(16))
      && (GenerateQrCode(p).Ok? ==>
            |GenerateQrCode(p).value| == 22
            && ParseQrCode(GenerateQrCode(p).value) == if flow <= CUSTOM then Ok(p) else Err(UnknownFlow))
  {
    var p := Make(discriminator, pincode, rendezvous, flow, vid, pid);
    assert Pow2(2) == 4;
    if QrInRange(p) {
      QrRoundTripInRange(p);
    }
  }

  lemma QrRoundTripInRange(p: Payload)
    requires QrInRange(p)
    ensures |GenerateQrCode(p).value| == 22
    ensures ParseQrCode(GenerateQrCode(p).value) ==
      if p.flow > CUSTOM then Err(UnknownFlow)
      else Ok(Make(p.longDiscriminator.value, p.pincode, p.discovery.value, p.flow, p.vid.value, p.pid.value))
  {
    hide ToBits, Value, Pow2, QrBits, BitsToBytes, BytesToBits, Reversed, Base38.Encoded, Base38.Decoded;
    var raw := BitsToBytes(QrBits(p));
    var text := GenerateQrCode(p).value;
    assert text[3..] == Base38.Encoded(Reversed(raw));
    Base38.DecodeEncode(Reversed(raw));
    Base38.EncodedLength(Reversed(raw));
    ReversedTwice(raw);
    BitsRoundTrip(QrBits(p));
    QrFields(p);
  }

  // ---------------------------------------------------------------------------
  // What the QR text says

  /** The payload as one number: from the lowest bits up, three bits of version, vid, pid, flow, discovery,
      discriminator, pincode. */
  function QrNumber(p: Payload): nat
    requires QrInRange(p)
  {
    8 * (p.vid.value + 0x1_0000 * (p.pid.value + 0x1_0000 * (p.flow + 4 * (p.discovery.value
      + 256 * (p.longDiscriminator.value + 4096 * p.pincode)))))
  }

  lemma QrValue(p: Payload)
    requires QrInRange(p)
    ensures Value(QrBits(p)) == QrNumber(p)
  {
    hide ToBits, Value, Pow2;
    SmallPowers();
    OtherPowers();
    var b0, b1, b2, b3 := ToBits(0, 4), ToBits(p.pincode, 27), ToBits(p.longDiscriminator.value, 12),
                          ToBits(p.discovery.value, 8);
    var b4, b5, b6, b7 := ToBits(p.flow, 2), ToBits(p.pid.value, 16), ToBits(p.vid.value, 16), ToBits(0, 3);
    ToBitsRoundTrip(0, 4);
    ToBitsRoundTrip(p.pincode, 27);
    ToBitsRoundTrip(p.longDiscriminator.value, 12);
    ToBitsRoundTrip(p.discovery.value, 8);
    ToBitsRoundTrip(p.flow, 2);
    ToBitsRoundTrip(p.pid.value, 16);
    ToBitsRoundTrip(p.vid.value, 16);
    ToBitsRoundTrip(0, 3);
    ValueConcat(b0, b1);
    ValueConcat(b0 + b1, b2);
    ValueConcat(b0 + b1 + b2, b3);
    ValueConcat(b0 + b1 + b2 + b3, b4);
    ValueConcat(b0 + b1 + b2 + b3 + b4, b5);
    ValueConcat(b0 + b1 + b2 + b3 + b4 + b5, b6);
    ValueConcat(b0 + b1 + b2 + b3 + b4 + b5 + b6, b7);
  }

  lemma OtherPowers()
    ensures Pow2(2) == 4
  {
  }

  lemma {:induction false} PowersOfBytes(n: nat)
    ensures Pow2(8 * n) == Base38.Power(256, n)
  {
    if n > 0 {
      PowersOfBytes(n - 1);
      EightMore(8 * n - 8);
    }
  }

  lemma EightMore(n: nat)
    ensures Pow2(n + 8) == 256 * Pow2(n)
  {
    assert Pow2(n + 2) == 4 * Pow2(n);
    assert Pow2(n + 4) == 4 * Pow2(n + 2);
    assert Pow2(n + 6) == 4 * Pow2(n + 4);
  }

  /** Bits packed into bytes and turned round are the little-endian form of their number. */
  lemma {:induction false} LittleEndian(bits: seq<bool>)
    requires |bits| % 8 == 0
    ensures Base38.BytesValue(Reversed(BitsToBytes(bits))) == Value(bits)
  {
    hide Value, Pow2, Base38.Power;
    if bits == [] {
      ValueOfNothing();
    } else {
      var rest := Reversed(BitsToBytes(bits[8..]));
      assert BitsToBytes(bits)[1..] == BitsToBytes(bits[8..]);
      LittleEndian(bits[8..]);
      Base38.BytesValueSnoc(rest, BitsToBytes(bits)[0]);
      ValueConcat(bits[..8], bits[8..]);
      assert bits == bits[..8] + bits[8..];
      PowersOfBytes(|rest|);
    }
  }

  lemma ValueOfNothing()
    ensures Value([]) == 0
  {
  }

  /** The text is the prefix and the base-38 form of the number's eleven little-endian bytes. */
  lemma QrTextExact(p: Payload)
    requires QrInRange(p)
    ensures GenerateQrCode(p) == Ok("MT:" + Base38.Encoded(Base38.ToBytes(QrNumber(p), 11)))
  {
    hide Value, QrBits, BitsToBytes, Reversed, Base38.Encoded, Base38.ToBytes, Base38.BytesValue;
    var b := Reversed(BitsToBytes(QrBits(p)));
    LittleEndian(QrBits(p));
    QrValue(p);
    Base38.BytesRoundTrip(b);
  }

  /** A known text: discriminator 3840, pincode 20202021, discovery over Bluetooth, standard flow, vid 0xFFF1
      and pid 0x8000. */
  lemma QrExample()
    ensures GenerateQrCode(Make(3840, 20202021, 2, STANDARD, 0xFFF1, 0x8000)) == Ok("MT:Y.K9042C00KA0648G00")
  {
    hide Base38.Encoded, Base38.ToBytes, QrNumber, GenerateQrCode;
    var p := Make(3840, 20202021, 2, STANDARD, 0xFFF1, 0x8000);
    InRangeExample(p);
    QrTextExact(p);
    NumberExample(p);
    BytesExample();
    TextExample();
    assert "MT:" + "Y.K9042C00KA0648G00" == "MT:Y.K9042C00KA0648G00";
  }

  lemma InRangeExample(p: Payload)
    requires p == Make(3840, 20202021, 2, STANDARD, 0xFFF1, 0x8000)
    ensures QrInRange(p)
  {
    hide Pow2;
    SmallPowers();
    OtherPowers();
  }

  lemma NumberExample(p: Payload)
    requires p == Make(3840, 20202021, 2, STANDARD, 0xFFF1, 0x8000) && QrInRange(p)
    ensures QrNumber(p) == 0x7FF88 + 0x100_0000 * (0x4400 + 0x100_0000 * (0x844BE0 + 0x100_0000 * 0x268))
  {
  }

  const EXAMPLE_TAIL: bytes := [0x68, 0x02]

  function ExampleBytes(): bytes {
    [0x88, 0xFF, 0x07] + ([0x00, 0x44, 0x00] + ([0xE0, 0x4B, 0x84] + EXAMPLE_TAIL))
  }

  lemma BytesExample()
    ensures Base38.ToBytes(0x7FF88 + 0x100_0000 * (0x4400 + 0x100_0000 * (0x844BE0 + 0x100_0000 * 0x268)), 11) ==
      ExampleBytes()
  {
    hide Base38.BytesValue, Base38.ToBytes;
    LastBytes();
    ThreeBytes(0xE0, 0x4B, 0x84, EXAMPLE_TAIL);
    ThreeBytes(0x00, 0x44, 0x00, [0xE0, 0x4B, 0x84] + EXAMPLE_TAIL);
    ThreeBytes(0x88, 0xFF, 0x07, [0x00, 0x44, 0x00] + ([0xE0, 0x4B, 0x84] + EXAMPLE_TAIL));
    Base38.BytesRoundTrip(ExampleBytes());
  }

  lemma LastBytes()
    ensures Base38.BytesValue(EXAMPLE_TAIL) == 0x268 && Base38.BytesValue([]) == 0
  {
    assert EXAMPLE_TAIL[1..] == [0x02] && EXAMPLE_TAIL[1..][1..] == [];
  }

  lemma ThreeBytes(a: byte, b: byte, c: byte, rest: bytes)
    ensures Base38.BytesValue([a, b, c] + rest) == a + 0x100 * b + 0x1_0000 * c + 0x100_0000 * Base38.BytesValue(rest)
  {
    var all := [a, b, c] + rest;
    assert all[1..] == [b, c] + rest && ([b, c] + rest)[1..] == [c] + rest && ([c] + rest)[1..] == rest;
    var v: nat, w: nat := Base38.BytesValue([c] + rest), Base38.BytesValue([b, c] + rest);
    assert v == c + 256 * Base38.BytesValue(rest);
    assert w == b + 256 * v;
    assert Base38.BytesValue(all) == a + 256 * w;
  }

  lemma ChunkText(a: byte, b: byte, c: byte, rest: bytes)
    ensures Base38.Encoded([a, b, c] + rest) == Base38.Digits(a + 0x100 * b + 0x1_0000 * c, 5) + Base38.Encoded(rest)
  {
    hide Base38.BytesValue, Base38.Digits;
    LastBytes();
    ThreeBytes(a, b, c, []);
    assert ([a, b, c] + rest)[..3] == [a, b, c] + [] && ([a, b, c] + rest)[3..] == rest;
  }

  lemma TextExample()
    ensures Base38.Encoded(ExampleBytes()) == "Y.K9042C00KA0648G00"
  {
    hide Base38.Encoded, Base38.Digits;
    ChunkText(0x88, 0xFF, 0x07, [0x00, 0x44, 0x00] + ([0xE0, 0x4B, 0x84] + EXAMPLE_TAIL));
    ChunkText(0x00, 0x44, 0x00, [0xE0, 0x4B, 0x84] + EXAMPLE_TAIL);
    ChunkText(0xE0, 0x4B, 0x84, EXAMPLE_TAIL);
    TailText();
    DigitsExample();
    assert "Y.K90" + ("42C00" + ("KA064" + "8G00")) == "Y.K9042C00KA0648G00";
  }

  lemma TailText()
    ensures Base38.Encoded(EXAMPLE_TAIL) == Base38.Digits(0x268, 4)
  {
    hide Base38.BytesValue, Base38.Digits;
    LastBytes();
    assert EXAMPLE_TAIL[..2] == EXAMPLE_TAIL && EXAMPLE_TAIL[2..] == [];
  }

  lemma DigitsExample()
    ensures Base38.Digits(0x7FF88, 5) == "Y.K90" && Base38.Digits(0x4400, 5) == "42C00"
    ensures Base38.Digits(0x844BE0, 5) == "KA064" && Base38.Digits(0x268, 4) == "8G00"
  {
    hide Base38.Digits, Base38.Code;
    CodeExamples();
    DigitsOfFive(0x7FF88, 34, 37, 20, 9, 0);
    DigitsOfFive(0x4400, 4, 2, 12, 0, 0);
    DigitsOfFive(0x844BE0, 20, 10, 0, 6, 4);
    DigitsOfFive(0x268, 8, 16, 0, 0, 0);
  }

  /** The digits of a number given by them. */
  lemma DigitsOfFive(v: nat, a: nat, b: nat, c: nat, d: nat, e: nat)
    requires a < 38 && b < 38 && c < 38 && d < 38 && e < 38
    requires v == a + 38 * (b + 38 * (c + 38 * (d + 38 * e)))
    ensures Base38.Digits(v, 5) == [Base38.Code(a), Base38.Code(b), Base38.Code(c), Base38.Code(d), Base38.Code(e)]
    ensures Base38.Digits(v, 4) == [Base38.Code(a), Base38.Code(b), Base38.Code(c), Base38.Code(d)]
  {
    hide Base38.Digits, Base38.Code;
    var x := d + 38 * e;
    var y := c + 38 * x;
    var z := b + 38 * y;
    NextDigit(a, z, 4);
    NextDigit(a, z, 3);
    NextDigit(b, y, 3);
    NextDigit(b, y, 2);
    NextDigit(c, x, 2);
    NextDigit(c, x, 1);
    NextDigit(d, e, 1);
    NextDigit(d, e, 0);
    NextDigit(e, 0, 0);
    NoDigits(e);
    NoDigits(0);
  }

  lemma NextDigit(d: nat, v: nat, n: nat)
    requires d < 38
    ensures Base38.Digits(d + 38 * v, n + 1) == [Base38.Code(d)] + Base38.Digits(v, n)
  {
    hide Base38.Code;
    assert (d + 38 * v) % 38 == d && (d + 38 * v) / 38 == v;
  }

  lemma NoDigits(v: nat)
    ensures Base38.Digits(v, 0) == []
  {
  }

  lemma CodeExamples()
    ensures Base38.Code(0) == '0' && Base38.Code(2) == '2' && Base38.Code(4) == '4' && Base38.Code(6) == '6'
    ensures Base38.Code(8) == '8' && Base38.Code(9) == '9' && Base38.Code(10) == 'A' && Base38.Code(12) == 'C'
    ensures Base38.Code(16) == 'G' && Base38.Code(20) == 'K' && Base38.Code(34) == 'Y' && Base38.Code(37) == '.'
  {
    Base38.CodesExact();
  }

  // ---------------------------------------------------------------------------
  // Decimal text

  function DigitChar(d: nat): (c: char)
    requires d < 10
    ensures '0' <= c <= '9'
  {
    ('0' as int + d) as char
  }

  /** `str(n)`. */
  function Decimal(n: nat): (r: string)
    ensures |r| >= 1
  {
    if n < 10 then [DigitChar(n)] else Decimal(n / 10) + [DigitChar(n % 10)]
  }

  /** `.zfill(width)`, on text without a sign. */
  function Zfill(text: string, width: nat): (r: string)
    ensures |r| == if |text| < width then width else |text|
  {
    if |text| >= width then text else seq(width - |text|, _ => '0') + text
  }

  predicate IsDigits(text: string) {
    forall i :: 0 <= i < |text| ==> '0' <= text[i] <= '9'
  }

  /** `int(text)` on digits. */
  function Number(text: string): nat
    requires IsDigits(text)
  {
    if text == [] then 0 else 10 * Number(text[..|text| - 1]) + (text[|text| - 1] as int - '0' as int)
  }

  lemma {:induction false} DecimalNumber(n: nat)
    ensures IsDigits(Decimal(n)) && Number(Decimal(n)) == n
  {
    if n >= 10 {
      DecimalNumber(n / 10);
      var d := Decimal(n);
      assert d[..|d| - 1] == Decimal(n / 10);
    } else {
      assert Decimal(n)[..0] == [];
    }
  }

  lemma {:induction false} DecimalLength(n: nat, width: nat)
    requires width >= 1 && n < Base38.Power(10, width)
    ensures |Decimal(n)| <= width
    decreases width
  {
    if n >= 10 {
      assert n / 10 < Base38.Power(10, width - 1);
      DecimalLength(n / 10, width - 1);
    }
  }

  lemma {:induction false} LeadingZeros(zeros: nat, text: string)
    requires IsDigits(text)
    ensures IsDigits(seq(zeros, _ => '0') + text)
    ensures Number(seq(zeros, _ => '0') + text) == Number(text)
    decreases |text|, zeros
  {
    var all := seq(zeros, _ => '0') + text;
    if text != [] {
      var init := text[..|text| - 1];
      assert all[..|all| - 1] == seq(zeros, _ => '0') + init;
      LeadingZeros(zeros, init);
    } else if zeros > 0 {
      assert all[..|all| - 1] == seq(zeros - 1, _ => '0') + [];
      LeadingZeros(zeros - 1, []);
    }
  }

  /** A number below 10^width is written with exactly `width` digits and read back. */
  lemma FixedWidth(n: nat, width: nat)
    requires width >= 1 && n < Base38.Power(10, width)
    ensures |Zfill(Decimal(n), width)| == width
    ensures IsDigits(Zfill(Decimal(n), width)) && Number(Zfill(Decimal(n), width)) == n
  {
    hide Decimal, Number;
    DecimalLength(n, width);
    DecimalNumber(n);
    LeadingZeros(width - |Decimal(n)|, Decimal(n));
  }

  // ---------------------------------------------------------------------------
  // The manual pairing code

  predicate ManualInRange(p: Payload) {
    && p.shortDiscriminator < Pow2(4) && p.pincode / 16384 < Pow2(13)
    && (p.flow == STANDARD || (FitsBits(p.vid, 16) && FitsBits(p.pid, 16)))
  }

  /** The first 33 bits of the layout, as built: version, vid_pid_present, discriminator, and the two
      parts of the pincode. */
  function ManualBits(p: Payload): (r: seq<bool>)
    requires ManualInRange(p)
    ensures |r| == 33
  {
    ToBits(0, 1) + ToBits(if p.flow == STANDARD then 0 else 1, 1) + ToBits(p.shortDiscriminator, 4)
    + ToBits(p.pincode % 16384, 14) + ToBits(p.pincode / 16384, 13)
  }

  function ManualDigits(p: Payload): string
    requires ManualInRange(p)
  {
    var bits := ManualBits(p);
    Zfill(Decimal(Value(bits[0..4])), 1) + Zfill(Decimal(Value(bits[4..20])), 5)
    + Zfill(Decimal(Value(bits[20..33])), 4)
    + (if p.flow == STANDARD then "" else Zfill(Decimal(p.vid.value), 5) + Zfill(Decimal(p.pid.value), 5))
  }

  function GenerateManualCode(p: Payload, check: string -> char): Result<string, CodeError> {
    if !ManualInRange(p) then Err(FieldRange)
    else Ok(ManualDigits(p) + [check(ManualDigits(p))])
  }

  /** `None` with a message, an exception, or a payload object. */
  datatype Parsed = Rejected | Raised | ParsedAs(payload: Payload)

  /** What the parsed object looks like: the container's fields, with the ones a manual code does not
      carry set to None afterwards. */
  function FromManualContainer(bits: seq<bool>): Payload
    requires |bits| == 72
  {
    var present := Value(bits[1..2]) != 0;
    Payload(None, Value(bits[2..6]), Value(bits[20..33]) * 16384 + Value(bits[6..20]), None,
            if present then CUSTOM else STANDARD,
            if present then Some(Value(bits[33..49])) else None,
            if present then Some(Value(bits[49..65])) else None)
  }

  /** `int2ba(int(text), length=width)` raises on text that is not a number and on overflow. */
  function NumberBits(text: string, width: nat): Option<seq<bool>> {
    if text == [] || !IsDigits(text) || Number(text) >= Pow2(width) then None
    else Some(ToBits(Number(text), width))
  }

  /** `parse_manualcode`. */
  method ParseManualCode(text: string, check: string -> char) returns (r: Parsed)
    ensures r == ManualParse(text, check)
    ensures r.Rejected? <==> Unwanted(text, check)
    ensures r.ParsedAs? <==> !Unwanted(text, check) && '0' <= text[0] <= '9' && ChunksFit(text)
    ensures r.ParsedAs? ==> r.payload == PayloadRead(text)
  {
    hide ToBits, Value, Number, Pow2, Unwanted, ChunksFit, PayloadRead;
    ManualExact(text, check);
    if |text| != 11 && |text| != 21 {
      return Rejected;
    }
    if !('0' <= text[0] <= '9') {
      return Raised;
    }
    var first := text[0] as int - '0' as int;
    if first > 7 {
      return Rejected;
    }
    if check(text[..|text| - 1]) != text[|text| - 1] {
      return Rejected;
    }
    var isLong := first / 4 % 2 == 1;
    var bits := ToBits(first, 4);
    var part := NumberBits(text[1..6], 16);
    if part.None? {
      return Raised;
    }
    bits := bits + part.value;
    part := NumberBits(text[6..10], 13);
    if part.None? {
      return Raised;
    }
    bits := bits + part.value;
    part := if isLong then NumberBits(Slice(text, 10, 15), 16) else Some(ToBits(0, 16));
    if part.None? {
      return Raised;
    }
    bits := bits + part.value;
    part := if isLong then NumberBits(Slice(text, 15, 20), 16) else Some(ToBits(0, 16));
    if part.None? {
      return Raised;
    }
    bits := bits + part.value;
    bits := bits + ToBits(0, 7);
    r := ParsedAs(FromManualContainer(bits));
  }

  /** Python's slice, cut off at the end of the text. */
  function Slice(text: string, lo: nat, hi: nat): string
    requires lo <= hi
  {
    text[Base38.Least(lo, |text|)..Base38.Least(hi, |text|)]
  }

  /** The same as an expression. */
  function ManualParse(text: string, check: string -> char): Parsed {
    if |text| != 11 && |text| != 21 then Rejected
    else if !('0' <= text[0] <= '9') then Raised
    else
      var first := text[0] as int - '0' as int;
      if first > 7 then Rejected
      else if check(text[..|text| - 1]) != text[|text| - 1] then Rejected
      else
        var isLong := first / 4 % 2 == 1;
        var middle, low := NumberBits(text[1..6], 16), NumberBits(text[6..10], 13);
        var vid := if isLong then NumberBits(Slice(text, 10, 15), 16) else Some(ToBits(0, 16));
        var pid := if isLong then NumberBits(Slice(text, 15, 20), 16) else Some(ToBits(0, 16));
        if middle.None? || low.None? || vid.None? || pid.None? then Raised
        else
          var bits := ToBits(first, 4) + middle.value + low.value + vid.value + pid.value + ToBits(0, 7);
          ParsedAs(FromManualContainer(bits))
  }

  /** A wrong length, a first digit that is 8 or 9, or a wrong check digit behind a first digit. */
  predicate Unwanted(text: string, check: string -> char) {
    (|text| != 11 && |text| != 21)
    || ('0' <= text[0] <= '9' && (text[0] > '7' || check(text[..|text| - 1]) != text[|text| - 1]))
  }

  /** A number that is there, in digits, and below the limit. */
  predicate Fits(text: string, limit: nat) {
    text != [] && IsDigits(text) && Number(text) < limit
  }

  /** Vid and pid follow the other chunks. */
  predicate LongForm(text: string)
    requires |text| >= 1
  {
    '4' <= text[0] <= '7'
  }

  predicate ChunksFit(text: string)
    requires |text| == 11 || |text| == 21
  {
    && Fits(text[1..6], 65536) && Fits(text[6..10], 8192)
    && (LongForm(text) ==> |text| == 21 && Fits(text[10..15], 65536) && Fits(text[15..20], 65536))
  }

  /** The payload in terms of the numbers the digits print: the two low bits of the first one and the two high
      bits of the second are the discriminator; the other 14 bits of the second, and the third, the pincode. */
  function PayloadRead(text: string): Payload
    requires |text| == 11 || |text| == 21
    requires '0' <= text[0] <= '7' && ChunksFit(text)
  {
    var first, middle, low := text[0] as int - '0' as int, Number(text[1..6]), Number(text[6..10]);
    Payload(None, first % 4 * 4 + middle / 16384, low * 16384 + middle % 16384, None,
            if LongForm(text) then CUSTOM else STANDARD,
            if LongForm(text) then Some(Number(text[10..15])) else None,
            if LongForm(text) then Some(Number(text[15..20])) else None)
  }

  /** What the parser makes of any text, in those terms: it returns None exactly on the unwanted ones, raises
      exactly where a chunk of the others is no number of its width, and reads these numbers otherwise. */
  lemma ManualExact(text: string, check: string -> char)
    ensures ManualParse(text, check).Rejected? <==> Unwanted(text, check)
    ensures ManualParse(text, check).ParsedAs? <==> !Unwanted(text, check) && '0' <= text[0] <= '9' && ChunksFit(text)
    ensures ManualParse(text, check).ParsedAs? ==> ManualParse(text, check).payload == PayloadRead(text)
  {
    hide ToBits, Value, Pow2, Number, FromManualContainer;
    SmallPowers();
    if ManualParse(text, check).ParsedAs? {
      PayloadOfText(text, check);
    }
  }

  lemma PayloadOfText(text: string, check: string -> char)
    requires ManualParse(text, check).ParsedAs?
    ensures (|text| == 11 || |text| == 21) && '0' <= text[0] <= '7' && ChunksFit(text)
    ensures ManualParse(text, check).payload == PayloadRead(text)
  {
    hide ToBits, Value, Pow2, Number, FromManualContainer;
    SmallPowers();
    var first := text[0] as int - '0' as int;
    var middle, low := Number(text[1..6]), Number(text[6..10]);
    var vid := if LongForm(text) then ToBits(Number(Slice(text, 10, 15)), 16) else ToBits(0, 16);
    var pid := if LongForm(text) then ToBits(Number(Slice(text, 15, 20)), 16) else ToBits(0, 16);
    var bits := ToBits(first, 4) + ToBits(middle, 16) + ToBits(low, 13) + vid + pid + ToBits(0, 7);
    assert ManualParse(text, check) == ParsedAs(FromManualContainer(bits));
    ContainerValues(first, middle, low, vid, pid, ToBits(0, 7));
    ContainerFields(bits);
    if LongForm(text) {
      assert Slice(text, 15, 20) != [];
      ToBitsRoundTrip(Number(text[10..15]), 16);
      ToBitsRoundTrip(Number(text[15..20]), 16);
    }
  }

  /** The two fields that straddle chunks. */
  lemma ContainerFields(bits: seq<bool>)
    requires |bits| == 72
    ensures var p := FromManualContainer(bits);
      var first, middle, low := Value(bits[0..4]), Value(bits[4..20]), Value(bits[20..33]);
      && p.shortDiscriminator == first % 4 * 4 + middle / 16384 && p.pincode == low * 16384 + middle % 16384
      && p.longDiscriminator == None && p.discovery == None
      && p.flow == (if Value(bits[1..2]) != 0 then CUSTOM else STANDARD)
      && p.vid == (if Value(bits[1..2]) != 0 then Some(Value(bits[33..49])) else None)
      && p.pid == (if Value(bits[1..2]) != 0 then Some(Value(bits[49..65])) else None)
  {
    hide ToBits, Value, Pow2;
    SmallPowers();
    TwoBits();
    assert bits[0..4] == bits[0..2] + bits[2..4] && bits[2..6] == bits[2..4] + bits[4..6];
    assert bits[4..20] == bits[4..6] + bits[6..20];
    ValueConcat(bits[0..2], bits[2..4]);
    ValueConcat(bits[2..4], bits[4..6]);
    ValueConcat(bits[4..6], bits[6..20]);
    ValueBound(bits[2..4]);
    ValueBound(bits[6..20]);
  }

  lemma TwoBits()
    ensures Pow2(2) == 4
  {
  }

  /** What a manual code keeps of a payload: the short discriminator, the pincode, and vid and pid unless
      the flow is Standard; every other flow is read back as Custom. */
  function Remembered(p: Payload): Payload {
    Payload(None, p.shortDiscriminator, p.pincode, None,
            if p.flow == STANDARD then STANDARD else CUSTOM,
            if p.flow == STANDARD then None else p.vid,
            if p.flow == STANDARD then None else p.pid)
  }

  /** The numbers the three chunks print, and the bits they are read back into. */
  lemma ManualChunks(p: Payload)
    requires ManualInRange(p)
    ensures var bits := ManualBits(p);
      && Value(bits[0..4]) < 8 && (Value(bits[0..4]) / 4 % 2 == 1 <==> p.flow != STANDARD)
      && Value(bits[4..20]) < 65536 && Value(bits[20..33]) < 8192
      && ToBits(Value(bits[0..4]), 4) == bits[0..4] && ToBits(Value(bits[4..20]), 16) == bits[4..20]
      && ToBits(Value(bits[20..33]), 13) == bits[20..33]
  {
    hide ToBits, Value, Pow2, ManualBits;
    var bits := ManualBits(p);
    FirstTwoBits(p);
    TopBits(bits[0..4]);
    ChunkValues(bits);
  }

  lemma FirstTwoBits(p: Payload)
    requires ManualInRange(p)
    ensures ManualBits(p)[0] == false && ManualBits(p)[1] == (p.flow != STANDARD)
  {
    hide ToBits, Value, Pow2;
    var present := if p.flow == STANDARD then 0 else 1;
    var bits := ManualBits(p);
    SmallPowers();
    OneBit();
    EightParts(ToBits(0, 1), ToBits(present, 1), ToBits(p.shortDiscriminator, 4), ToBits(p.pincode % 16384, 14),
               ToBits(p.pincode / 16384, 13), [], [], [], bits);
    assert bits[0] == ToBits(0, 1)[0];
    assert bits[1] == bits[1..][..1][0];
  }

  lemma ChunkValues(bits: seq<bool>)
    requires |bits| == 33
    ensures Value(bits[4..20]) < 65536 && Value(bits[20..33]) < 8192
    ensures ToBits(Value(bits[0..4]), 4) == bits[0..4] && ToBits(Value(bits[4..20]), 16) == bits[4..20]
    ensures ToBits(Value(bits[20..33]), 13) == bits[20..33]
  {
    hide ToBits, Value, Pow2;
    SmallPowers();
    ValueBound(bits[4..20]);
    ValueBound(bits[20..33]);
    ValueRoundTrip(bits[0..4]);
    ValueRoundTrip(bits[4..20]);
    ValueRoundTrip(bits[20..33]);
  }

  lemma TopBits(bits: seq<bool>)
    requires |bits| == 4
    ensures Value(bits) == 8 * Bit(bits[0]) + 4 * Bit(bits[1]) + 2 * Bit(bits[2]) + Bit(bits[3])
  {
    ValueOfFour(bits[0], bits[1], bits[2], bits[3]);
    assert bits == [bits[0], bits[1], bits[2], bits[3]];
  }

  /** The fields, read from the bits at their places in the 72-bit layout. */
  lemma ManualFields(p: Payload, vid: seq<bool>, pid: seq<bool>, pad: seq<bool>)
    requires ManualInRange(p) && |vid| == |pid| == 16 && |pad| == 7
    requires p.flow != STANDARD ==> vid == ToBits(p.vid.value, 16) && pid == ToBits(p.pid.value, 16)
    ensures FromManualContainer(ManualBits(p) + vid + pid + pad) == Remembered(p)
  {
    hide ToBits, Value, Pow2;
    var bits := ManualBits(p) + vid + pid + pad;
    var present := if p.flow == STANDARD then 0 else 1;
    SmallPowers();
    OneBit();
    EightParts(ToBits(0, 1), ToBits(present, 1), ToBits(p.shortDiscriminator, 4), ToBits(p.pincode % 16384, 14),
               ToBits(p.pincode / 16384, 13), vid, pid, pad, bits);
    ToBitsRoundTrip(present, 1);
    ToBitsRoundTrip(p.shortDiscriminator, 4);
    ToBitsRoundTrip(p.pincode % 16384, 14);
    ToBitsRoundTrip(p.pincode / 16384, 13);
    assert bits[1..][..1] == bits[1..2] && bits[2..][..4] == bits[2..6] && bits[6..][..14] == bits[6..20];
    assert bits[20..][..13] == bits[20..33] && bits[33..][..16] == bits[33..49] && bits[49..][..16] == bits[49..65];
    if p.flow != STANDARD {
      ToBitsRoundTrip(p.vid.value, 16);
      ToBitsRoundTrip(p.pid.value, 16);
    }
  }

  lemma OneBit()
    ensures Pow2(1) == 2 && ToBits(0, 1) == [false] && ToBits(1, 1) == [true]
  {
  }

  /** Parsing the generated manual code gives back what it keeps of the payload; the code has 11 digits
      for the Standard flow and 21 for the others, whatever the check digit function is. */
  lemma ManualRoundTrip(p: Payload, check: string -> char)
    requires ManualInRange(p)
    ensures GenerateManualCode(p, check).Ok?
    ensures var code := GenerateManualCode(p, check).value;
      && |code| == (if p.flow == STANDARD then 11 else 21)
      && ManualParse(code, check) == ParsedAs(Remembered(p))
  {
    hide ToBits, Value, Pow2, ManualBits, Decimal, Number, Zfill;
    var bits := ManualBits(p);
    var v1, v2, v3 := Value(bits[0..4]), Value(bits[4..20]), Value(bits[20..33]);
    ManualChunks(p);
    SmallPowers();
    TenPowers();
    FixedWidth(v1, 1);
    FixedWidth(v2, 5);
    FixedWidth(v3, 4);
    var c1, c2, c3 := Zfill(Decimal(v1), 1), Zfill(Decimal(v2), 5), Zfill(Decimal(v3), 4);
    var tail := "";
    if p.flow != STANDARD {
      FixedWidth(p.vid.value, 5);
      FixedWidth(p.pid.value, 5);
      tail := Zfill(Decimal(p.vid.value), 5) + Zfill(Decimal(p.pid.value), 5);
    }
    var digits := c1 + c2 + c3 + tail;
    var code := digits + [check(digits)];
    assert ManualDigits(p) == digits;
    assert code[..|code| - 1] == digits;
    SingleDigit(c1, v1);
    assert code[1..6] == c2 && code[6..10] == c3;
    assert bits == bits[0..4] + bits[4..20] + bits[20..33];
    if p.flow == STANDARD {
      ManualFields(p, ToBits(0, 16), ToBits(0, 16), ToBits(0, 7));
    } else {
      LastChunks(c1 + c2 + c3, Zfill(Decimal(p.vid.value), 5), Zfill(Decimal(p.pid.value), 5), [check(digits)], code);
      ManualFields(p, ToBits(p.vid.value, 16), ToBits(p.pid.value, 16), ToBits(0, 7));
    }
  }

  lemma LastChunks(head: string, vid: string, pid: string, end: string, code: string)
    requires |head| == 10 && |vid| == 5 && |pid| == 5 && |end| == 1 && code == head + (vid + pid) + end
    ensures Slice(code, 10, 15) == vid && Slice(code, 15, 20) == pid
  {
    assert code == head + vid + pid + end;
    assert code[10..15] == vid && code[15..20] == pid;
  }

  lemma SingleDigit(text: string, n: nat)
    requires |text| == 1 && IsDigits(text) && Number(text) == n
    ensures text[0] as int - '0' as int == n
  {
    assert text[..0] == [];
  }

  lemma DecimalSnoc(n: nat, d: nat)
    requires d < 10
    ensures Decimal(10 * n + d) == if n == 0 then [DigitChar(d)] else Decimal(n) + [DigitChar(d)]
  {
    assert (10 * n + d) / 10 == n && (10 * n + d) % 10 == d;
  }

  /** Digits written out again from their number, at their own width. */
  lemma {:induction false} NumberDecimal(text: string)
    requires |text| >= 1 && IsDigits(text)
    ensures Zfill(Decimal(Number(text)), |text|) == text
  {
    hide Decimal;
    var init, last := text[..|text| - 1], text[|text| - 1];
    var d: nat := last as int - '0' as int;
    assert text == init + [last] && DigitChar(d) == last;
    var n := if init == [] then 0 else Number(init);
    assert Number(text) == 10 * n + d by { assert text[..0] == []; }
    hide Number;
    DecimalSnoc(n, d);
    if init != [] {
      NumberDecimal(init);
      if n == 0 {
        DecimalSnoc(0, 0);
        assert init == seq(|init|, _ => '0');
      }
    }
  }

  /** The 33 bits of the payload object read from 72 bits are the first 33 of them, if the version bit is 0. */
  lemma BitsOfContainer(bits: seq<bool>)
    requires |bits| == 72 && !bits[0]
    ensures var p := FromManualContainer(bits);
      && ManualInRange(p) && ManualBits(p) == bits[..33]
      && (p.flow == STANDARD <==> Value(bits[1..2]) == 0)
      && (p.flow != STANDARD ==> p.vid == Some(Value(bits[33..49])) && p.pid == Some(Value(bits[49..65])))
  {
    hide ToBits, Value, Pow2;
    var p := FromManualContainer(bits);
    SmallPowers();
    OneBit();
    ValueBound(bits[1..2]);
    ValueBound(bits[2..6]);
    ValueBound(bits[6..20]);
    ValueBound(bits[20..33]);
    ValueBound(bits[33..49]);
    ValueBound(bits[49..65]);
    ValueRoundTrip(bits[1..2]);
    ValueRoundTrip(bits[2..6]);
    ValueRoundTrip(bits[6..20]);
    ValueRoundTrip(bits[20..33]);
    assert p.pincode % 16384 == Value(bits[6..20]) && p.pincode / 16384 == Value(bits[20..33]);
    assert bits[..33] == [false] + bits[1..2] + bits[2..6] + bits[6..20] + bits[20..33];
  }

  /** What an accepted text says about the payload object read from it. */
  lemma ParsedValues(text: string, check: string -> char)
    requires ManualParse(text, check).ParsedAs?
    ensures var p := ManualParse(text, check).payload;
      && ManualInRange(p)
      && IsDigits(text[0..1]) && IsDigits(text[1..6]) && IsDigits(text[6..10])
      && var bits := ManualBits(p);
      && Value(bits[0..4]) == Number(text[0..1]) && Value(bits[4..20]) == Number(text[1..6])
      && Value(bits[20..33]) == Number(text[6..10])
      && (p.flow != STANDARD <==> text[0] >= '4')
      && (p.flow != STANDARD ==>
            && |text| == 21 && IsDigits(text[10..15]) && IsDigits(text[15..20])
            && p.vid == Some(Number(text[10..15])) && p.pid == Some(Number(text[15..20])))
  {
    hide ToBits, Value, Pow2, Number, ManualBits, FromManualContainer;
    var first := text[0] as int - '0' as int;
    var isLong := first / 4 % 2 == 1;
    var middle, low := Number(text[1..6]), Number(text[6..10]);
    var vid := if isLong then ToBits(Number(Slice(text, 10, 15)), 16) else ToBits(0, 16);
    var pid := if isLong then ToBits(Number(Slice(text, 15, 20)), 16) else ToBits(0, 16);
    var bits := ToBits(first, 4) + ToBits(middle, 16) + ToBits(low, 13) + vid + pid + ToBits(0, 7);
    assert ManualParse(text, check) == ParsedAs(FromManualContainer(bits));
    ContainerValues(first, middle, low, vid, pid, ToBits(0, 7));
    BitsOfContainer(bits);
    assert bits[..33][0..4] == bits[0..4] && bits[..33][4..20] == bits[4..20] && bits[..33][20..33] == bits[20..33];
    DigitNumber(text[0..1]);
    if isLong {
      assert Slice(text, 15, 20) != [];
      ToBitsRoundTrip(Number(text[10..15]), 16);
      ToBitsRoundTrip(Number(text[15..20]), 16);
    }
  }

  /** The other way round: an accepted text is what the generator prints for the payload object read from
      it, if and only if it is not a text of 21 characters whose first digit says that no vid and pid
      follow (the parser skips them unread). */
  lemma ManualCanonical(text: string, check: string -> char)
    requires ManualParse(text, check).ParsedAs?
    ensures var p := ManualParse(text, check).payload;
      && ManualInRange(p)
      && (GenerateManualCode(p, check) == Ok(text) <==> |text| == 11 || text[0] >= '4')
  {
    hide ToBits, Value, Pow2, Number, Decimal, Zfill, ManualBits;
    var p := ManualParse(text, check).payload;
    ParsedValues(text, check);
    assert (|text| == 11 || |text| == 21) && check(text[..|text| - 1]) == text[|text| - 1];
    hide ManualParse;
    NumberDecimal(text[0..1]);
    NumberDecimal(text[1..6]);
    NumberDecimal(text[6..10]);
    var head := text[0..1] + text[1..6] + text[6..10];
    if p.flow != STANDARD {
      NumberDecimal(text[10..15]);
      NumberDecimal(text[15..20]);
      assert ManualDigits(p) == head + (text[10..15] + text[15..20]);
      assert ManualDigits(p) == text[..20];
    } else {
      assert ManualDigits(p) == head + "";
      assert ManualDigits(p) == text[..10];
    }
    assert text == text[..|text| - 1] + [text[|text| - 1]];
  }

  lemma ContainerValues(first: nat, middle: nat, low: nat, vid: seq<bool>, pid: seq<bool>, pad: seq<bool>)
    requires first < 8 && middle < Pow2(16) && low < Pow2(13) && |vid| == |pid| == 16 && |pad| == 7
    ensures var bits := ToBits(first, 4) + ToBits(middle, 16) + ToBits(low, 13) + vid + pid + pad;
      && Value(bits[0..4]) == first && Value(bits[4..20]) == middle && Value(bits[20..33]) == low
      && !bits[0] && (Value(bits[1..2]) != 0 <==> first / 4 % 2 == 1)
      && bits[33..49] == vid && bits[49..65] == pid
  {
    hide ToBits, Value, Pow2;
    var bits := ToBits(first, 4) + ToBits(middle, 16) + ToBits(low, 13) + vid + pid + pad;
    SmallPowers();
    EightParts([], ToBits(first, 4), ToBits(middle, 16), ToBits(low, 13), vid, pid, pad, [], bits);
    assert bits[0..][..4] == bits[0..4] && bits[4..][..16] == bits[4..20] && bits[20..][..13] == bits[20..33];
    assert bits[33..][..16] == bits[33..49] && bits[49..][..16] == bits[49..65];
    ToBitsRoundTrip(first, 4);
    ToBitsRoundTrip(middle, 16);
    ToBitsRoundTrip(low, 13);
    TopBits(bits[0..4]);
    SingleBit(bits[1..2]);
  }

  lemma SingleBit(bits: seq<bool>)
    requires |bits| == 1
    ensures Value(bits) == Bit(bits[0])
  {
    assert bits[..0] == [];
  }

  lemma DigitNumber(text: string)
    requires |text| == 1 && IsDigits(text)
    ensures Number(text) == text[0] as int - '0' as int
  {
    assert text[..0] == [];
  }

  lemma TenPowers()
    ensures Base38.Power(10, 1) == 10 && Base38.Power(10, 4) == 10000 && Base38.Power(10, 5) == 100000
  {
    assert Base38.Power(10, 2) == 100;
  }

  // ---------------------------------------------------------------------------
  // The two codes of one device

  /** The short discriminator is the upper four of the twelve bits of the long one. */
  lemma ShortIsUpperBits(discriminator: nat)
    requires discriminator < Pow2(12)
    ensures discriminator / 256 == Value(ToBits(discriminator, 12)[..4]) < 16
  {
    hide ToBits, Value, Pow2;
    var bits := ToBits(discriminator, 12);
    SmallPowers();
    ToBitsRoundTrip(discriminator, 12);
    ValueConcat(bits[..4], bits[4..]);
    ValueBound(bits[..4]);
    ValueBound(bits[4..]);
    assert bits == bits[..4] + bits[4..];
  }

  /** The QR text and the manual code of one constructed payload, read back, name the same device: the same
      pincode, and a short discriminator that is the upper four bits of the long one; and, with a custom flow,
      the same vid and pid. */
  lemma CodesAgree(discriminator: nat, pincode: nat, rendezvous: nat, flow: nat, vid: nat, pid: nat,
                   check: string -> char)
    requires discriminator < Pow2(12) && pincode < Pow2(27) && rendezvous < Pow2(8) && flow <= CUSTOM
    requires vid < Pow2(16) && pid < Pow2(16)
    ensures var p := Make(discriminator, pincode, rendezvous, flow, vid, pid);
      && GenerateQrCode(p).Ok? && GenerateManualCode(p, check).Ok?
      && var q, m := ParseQrCode(GenerateQrCode(p).value), ManualParse(GenerateManualCode(p, check).value, check);
      && q.Ok? && m.ParsedAs?
      && q.value.pincode == m.payload.pincode == pincode
      && q.value.longDiscriminator == Some(discriminator)
      && m.payload.shortDiscriminator == Value(ToBits(discriminator, 12)[..4])
      && (flow != STANDARD ==> m.payload.vid == q.value.vid == Some(vid) && m.payload.pid == q.value.pid == Some(pid))
  {
    hide ToBits, Value, Pow2, GenerateQrCode, GenerateManualCode, ManualParse, ParseQrCode;
    var p := Make(discriminator, pincode, rendezvous, flow, vid, pid);
    SmallPowers();
    ShortIsUpperBits(discriminator);
    QrRoundTrip(discriminator, pincode, rendezvous, flow, vid, pid);
    ManualRoundTrip(p, check);
  }

  /** A known manual code: discriminator 3840 and pincode 20202021 give 3497011233 and the check digit. */
  lemma ManualExample(check: string -> char)
    ensures GenerateManualCode(Make(3840, 20202021, 2, STANDARD, 0xFFF1, 0x8000), check) ==
      Ok("3497011233" + [check("3497011233")])
  {
    hide ToBits, Value, Pow2, Number, ManualParse, GenerateManualCode;
    var digits := "3497011233";
    var text := digits + [check(digits)];
    ExampleDigits(digits, text, check);
    ManualCanonical(text, check);
    SamePayload(text, check);
  }

  lemma ExampleDigits(digits: string, text: string, check: string -> char)
    requires digits == "3497011233" && text == digits + [check(digits)]
    ensures ManualParse(text, check) ==
      ParsedAs(Payload(None, 15, 20202021, None, STANDARD, None, None))
  {
    hide ToBits, Value, Pow2, Number, ManualParse;
    NumberExamples();
    assert text[1..6] == "49701" && text[6..10] == "1233" && text[..10] == digits;
    ManualExact(text, check);
  }

  lemma NumberExamples()
    ensures Number("49701") == 49701 && Number("1233") == 1233
  {
    assert "49701"[..4] == "4970" && "4970"[..3] == "497" && "497"[..2] == "49" && "49"[..1] == "4" && "4"[..0] == "";
    assert "1233"[..3] == "123" && "123"[..2] == "12" && "12"[..1] == "1" && "1"[..0] == "";
    assert Number("497") == 497 && Number("12") == 12;
  }

  /** The manual code looks at nothing but what it keeps. */
  lemma SamePayload(text: string, check: string -> char)
    ensures GenerateManualCode(Make(3840, 20202021, 2, STANDARD, 0xFFF1, 0x8000), check) ==
      GenerateManualCode(Payload(None, 15, 20202021, None, STANDARD, None, None), check)
  {
    hide ToBits, Value, Pow2, Decimal, Zfill;
  }
}
