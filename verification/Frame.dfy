/** Wire frames: layout, codec and builders (pc/src/frame/frame.py, pc/src/frame/protocol.py). */
module Frames {
  import opened Bytes
  import opened Crc

  const MAGIC: u16 := 0xFAC0
  const MAGIC_HIGH: byte := 0xFA
  const MAGIC_LOW: byte := 0xC0
  const MAX_SIZE: nat := 512
  const HEADER_SIZE: nat := 7
  const MAX_DATA_SIZE: nat := MAX_SIZE - HEADER_SIZE
  const FIRST_METADATA_SIZE: nat := 5
  const CONSECUTIVE_METADATA_SIZE: nat := 1
  const MAX_FIRST_DATA: nat := MAX_DATA_SIZE - FIRST_METADATA_SIZE
  const MAX_CONSECUTIVE_DATA: nat := MAX_DATA_SIZE - CONSECUTIVE_METADATA_SIZE
  const SINGLE_SEQUENCE: byte := 0xFF

  /** The exceptions below `FrameError`. */
  datatype FrameError =
    | ArgumentError | MagicError | CrcError | SequenceError | OverflowError | TimeoutError | IoError

  datatype FrameKind = Single | First | Consecutive | Ack | Nack

  datatype AnyFrame = FrameOf(kind: FrameKind, payload: bytes)

  /** A frame object exists only if its payload fits: the constructor raises otherwise. */
  type Frame = f: AnyFrame | |f.payload| <= MAX_DATA_SIZE witness FrameOf(Single, [])

  function MakeFrame(kind: FrameKind, payload: bytes): (r: Result<Frame, FrameError>)
    ensures r.Ok? <==> |payload| <= MAX_DATA_SIZE
  {
    if |payload| > MAX_DATA_SIZE then Err(ArgumentError) else Ok(FrameOf(kind, payload))
  }

  function KindCode(kind: FrameKind): byte {
    match kind
    case Single => 0x01
    case First => 0x02
    case Consecutive => 0x03
    case Ack => 0xF1
    case Nack => 0xF2
  }

  function KindOf(code: byte): Option<FrameKind> {
    match code
    case 0x01 => Some(Single)
    case 0x02 => Some(First)
    case 0x03 => Some(Consecutive)
    case 0xF1 => Some(Ack)
    case 0xF2 => Some(Nack)
    case _ => None
  }

  predicate IsControl(f: Frame) {
    f.kind == Ack || f.kind == Nack
  }

  /** The seven header bytes of a payload. */
  function Header(code: byte, payload: bytes): (r: bytes)
    requires |payload| <= MAX_DATA_SIZE
    ensures |r| == HEADER_SIZE
  {
    U16Be(MAGIC) + [code] + U16Be(|payload|) + U16Be(Crc16(payload))
  }

  function Encode(f: Frame): (r: bytes)
    ensures |r| == HEADER_SIZE + |f.payload|
  {
    Header(KindCode(f.kind), f.payload) + f.payload
  }

  function Decode(raw: bytes): Result<Frame, FrameError> {
    if |raw| < HEADER_SIZE then Err(ArgumentError)
    else if U16At(raw, 0) != MAGIC then Err(MagicError)
    else if KindOf(raw[2]).None? then Err(ArgumentError)
    else if U16At(raw, 3) > MAX_DATA_SIZE then Err(ArgumentError)
    else if |raw| != HEADER_SIZE + U16At(raw, 3) then Err(ArgumentError)
    else if Crc16(raw[HEADER_SIZE..]) != U16At(raw, 5) then Err(CrcError)
    else Ok(FrameOf(KindOf(raw[2]).value, raw[HEADER_SIZE..]))
  }

  /** The logical sequence number of a frame. */
  function Sequence(f: Frame): Result<byte, FrameError> {
    match f.kind
    case Single => Ok(SINGLE_SEQUENCE)
    case First => if |f.payload| < 5 then Err(ArgumentError) else Ok(f.payload[4])
    case _ => if |f.payload| < 1 then Err(ArgumentError) else Ok(f.payload[0])
  }

  function BuildFirst(totalSize: int, sequence: int, chunk: bytes): Result<Frame, FrameError> {
    if totalSize < 0 || totalSize > 0xFFFF_FFFF || sequence != 0 then Err(ArgumentError)
    else MakeFrame(First, U32Be(totalSize) + [0] + chunk)
  }

  function BuildConsecutive(sequence: int, chunk: bytes): Result<Frame, FrameError> {
    if sequence < 0 || sequence > 0xFF then Err(ArgumentError)
    else MakeFrame(Consecutive, [sequence] + chunk)
  }

  function AckFor(sequence: byte): Frame {
    FrameOf(Ack, [sequence])
  }

  function NackFor(sequence: byte): Frame {
    FrameOf(Nack, [sequence])
  }

  // ---------------------------------------------------------------------------
  // Properties

  lemma KindCodes(kind: FrameKind, code: byte)
    ensures KindOf(KindCode(kind)) == Some(kind)
    ensures KindOf(code).Some? ==> KindCode(KindOf(code).value) == code
  {
  }

  /** Where the header fields sit. */
  lemma HeaderFields(code: byte, payload: bytes, raw: bytes)
    requires |payload| <= MAX_DATA_SIZE && |raw| >= HEADER_SIZE
    ensures raw[..HEADER_SIZE] == Header(code, payload)
       <==> U16At(raw, 0) == MAGIC && raw[2] == code && U16At(raw, 3) == |payload| && U16At(raw, 5) == Crc16(payload)
  {
    hide Crc16;
    SevenBytes(MAGIC, code, |payload|, Crc16(payload), raw);
  }

  lemma SevenBytes(m: u16, code: byte, n: u16, c: u16, raw: bytes)
    requires |raw| >= 7
    ensures raw[..7] == U16Be(m) + [code] + U16Be(n) + U16Be(c)
       <==> U16At(raw, 0) == m && raw[2] == code && U16At(raw, 3) == n && U16At(raw, 5) == c
  {
    hide U16Be, U16At;
    var h := raw[..7];
    assert h == raw[0..2] + [raw[2]] + raw[3..5] + raw[5..7];
    U16Inverse(raw, 0);
    U16Inverse(raw, 3);
    U16Inverse(raw, 5);
    if h == U16Be(m) + [code] + U16Be(n) + U16Be(c) {
      assert raw[0..2] == h[0..2] == U16Be(m);
      assert raw[3..5] == h[3..5] == U16Be(n);
      assert raw[5..7] == h[5..7] == U16Be(c);
      assert raw[2] == h[2] == code;
      U16RoundTrip(m, raw, 0);
      U16RoundTrip(n, raw, 3);
      U16RoundTrip(c, raw, 5);
    }
  }

  /** Decoding undoes encoding. */
  lemma DecodeEncode(f: Frame)
    ensures Decode(Encode(f)) == Ok(f)
  {
    hide Crc16, U16At, U16Be;
    var raw := Encode(f);
    assert raw[..HEADER_SIZE] == Header(KindCode(f.kind), f.payload);
    assert raw[HEADER_SIZE..] == f.payload;
    HeaderFields(KindCode(f.kind), f.payload, raw);
    KindCodes(f.kind, 0);
  }

  /** The wire form is canonical: whatever is accepted is the encoding of what it decodes to. */
  lemma EncodeDecode(raw: bytes)
    requires Decode(raw).Ok?
    ensures Encode(Decode(raw).value) == raw
  {
    hide Crc16, U16At, U16Be;
    var f := Decode(raw).value;
    KindCodes(Single, raw[2]);
    HeaderFields(raw[2], f.payload, raw);
    assert raw == raw[..HEADER_SIZE] + raw[HEADER_SIZE..];
  }

  lemma EncodeInjective(f: Frame, g: Frame)
    requires Encode(f) == Encode(g)
    ensures f == g
  {
    DecodeEncode(f);
    DecodeEncode(g);
  }

  /** A payload hit by a burst of at most sixteen bits under an intact header is rejected. */
  lemma CorruptedPayloadRejected(f: Frame, received: bytes, lo: nat, width: nat)
    requires width <= 16 && BurstApart(f.payload, received, lo, width) && received != f.payload
    ensures Decode(Encode(f)[..HEADER_SIZE] + received) == Err(CrcError)
  {
    hide Crc16, U16At, U16Be;
    var raw := Encode(f)[..HEADER_SIZE] + received;
    assert raw[..HEADER_SIZE] == Header(KindCode(f.kind), f.payload);
    HeaderFields(KindCode(f.kind), f.payload, raw);
    KindCodes(f.kind, 0);
    assert raw[HEADER_SIZE..] == received;
    BurstChangesCrc(f.payload, received, lo, width);
  }

  /** The CRC does not cover the header: any change of the type byte to another known type is
      accepted, and turns every frame into a frame of that type. */
  lemma TypeByteIsUnprotected(f: Frame, kind: FrameKind)
    ensures Decode(Encode(f)[2 := KindCode(kind)]) == Ok(FrameOf(kind, f.payload))
  {
    hide Crc16, KindCode, U16Be, Decode;
    var g: Frame := FrameOf(kind, f.payload);
    var crc, size := U16Be(Crc16(f.payload)), U16Be(|f.payload|);
    assert Header(KindCode(f.kind), f.payload)[2 := KindCode(kind)] == Header(KindCode(kind), f.payload);
    assert Encode(f)[2 := KindCode(kind)] == Encode(g);
    DecodeEncode(g);
  }

  /** What the header is protected against, exactly: a change of one header byte goes unnoticed if and
      only if it turns the type into another known type. */
  lemma HeaderChangeExact(f: Frame, i: nat, b: byte)
    requires i < HEADER_SIZE && b != Encode(f)[i]
    ensures Decode(Encode(f)[i := b]).Ok? <==> i == 2 && KindOf(b).Some?
    ensures Decode(Encode(f)[i := b]).Ok? ==> Decode(Encode(f)[i := b]) == Ok(FrameOf(KindOf(b).value, f.payload))
  {
    hide Crc16, U16Be, U16At, Decode;
    if i == 2 && KindOf(b).Some? {
      KindCodes(f.kind, b);
      TypeByteIsUnprotected(f, KindOf(b).value);
    } else {
      HeaderChangeRefused(f, i, b);
    }
  }

  lemma HeaderChangeRefused(f: Frame, i: nat, b: byte)
    requires i < HEADER_SIZE && b != Encode(f)[i] && (i == 2 ==> KindOf(b).None?)
    ensures Decode(Encode(f)[i := b]).Err?
  {
    hide Crc16, U16Be, U16At;
    var raw := Encode(f)[i := b];
    if Decode(raw).Ok? {
      var g := Decode(raw).value;
      EncodeDecode(raw);
      assert g.payload == raw[HEADER_SIZE..] == f.payload;
      assert i != 2 ==> raw[2] == Encode(f)[2];
      KindCodes(f.kind, raw[2]);
    }
  }
}
