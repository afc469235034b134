/** The device's ACK and NACK frames (device/src/factory_frame.c, `factory_frame_control_encode` and
    `factory_frame_control_decode`), against the frame codec both ends share. */
module DeviceControl {
  import opened Bytes
  import opened Crc
  import opened Frames
  import opened Fragmenter
  import opened Assembler
  import Link

  const CONTROL_SIZE: nat := HEADER_SIZE + 1

  function Answer(isAck: bool, sequence: byte): Frame {
    if isAck then AckFor(sequence) else NackFor(sequence)
  }

  /** What the host decodes from the same bytes is the answer for `sequence`, and nothing longer. */
  predicate IsAnswer(raw: bytes, isAck: bool, sequence: byte) {
    Decode(raw) == Ok(Answer(isAck, sequence))
  }

  /** `factory_frame_control_encode`: the stored frame is the answer's wire form. */
  method ControlEncode(frame: array<byte>, isAck: bool, sequence: byte)
    requires frame.Length >= MAX_SIZE
    modifies frame
    ensures frame[..CONTROL_SIZE] == Encode(Answer(isAck, sequence))
    ensures IsAnswer(frame[..CONTROL_SIZE], isAck, sequence)
  {
    frame[HEADER_SIZE] := sequence;
    assert frame[HEADER_SIZE..CONTROL_SIZE] == [sequence];
    SealFrame(frame, if isAck then Ack else Nack, 1);
    DecodeEncode(Answer(isAck, sequence));
  }

  /** What the device makes of stored bytes when it looks for an answer. */
  function ControlOf(storage: bytes): Result<(bool, byte), DeviceError>
    requires |storage| >= CONTROL_SIZE
  {
    if U16At(storage, 0) != MAGIC then Err(InvalidMagic)
    else if storage[2] != 0xF1 && storage[2] != 0xF2 then Err(InvalidArgument)
    else if U16At(storage, 3) != 1 then Err(InvalidArgument)
    else if Crc16(storage[HEADER_SIZE..CONTROL_SIZE]) != U16At(storage, 5) then Err(CrcMismatch)
    else Ok((storage[2] == 0xF1, storage[HEADER_SIZE]))
  }

  /** `factory_frame_control_decode`, on any stored bytes. It succeeds exactly on the wire form of an
      answer and reads what the answer says; a failed CRC is told apart from a frame of another kind. */
  method ControlDecode(frame: array<byte>) returns (e: DeviceError, isAck: bool, sequence: byte)
    requires frame.Length >= MAX_SIZE
    ensures e == NoError ==> IsAnswer(frame[..CONTROL_SIZE], isAck, sequence)
    ensures forall a, q :: IsAnswer(frame[..CONTROL_SIZE], a, q) ==> e == NoError && a == isAck && q == sequence
    ensures e == InvalidMagic <==> U16At(frame[..], 0) != MAGIC
    ensures e == CrcMismatch <==> Decode(frame[..CONTROL_SIZE]) == Err(CrcError) && frame[2] >= 0xF1
    ensures if e == NoError then ControlOf(frame[..]) == Ok((isAck, sequence)) else ControlOf(frame[..]) == Err(e)
  {
    hide Crc16, U16At;
    ghost var raw := frame[..CONTROL_SIZE];
    isAck, sequence := false, 0;
    MagicBytes(frame[..]);
    SameField(frame[..], 0);
    SameField(frame[..], 3);
    SameField(frame[..], 5);
    assert raw == frame[..][..CONTROL_SIZE];
    if frame[0] != MAGIC_HIGH || frame[1] != MAGIC_LOW {
      return InvalidMagic, isAck, sequence;
    }
    if frame[2] != 0xF1 && frame[2] != 0xF2 {
      return InvalidArgument, isAck, sequence;
    }
    if U16At(frame[..], 3) != 1 {
      return InvalidArgument, isAck, sequence;
    }
    var crc := DeviceCrc16(frame, HEADER_SIZE, 1);
    assert raw[HEADER_SIZE..] == frame[HEADER_SIZE..HEADER_SIZE + 1] == [frame[HEADER_SIZE]];
    assert frame[..][HEADER_SIZE..CONTROL_SIZE] == frame[HEADER_SIZE..HEADER_SIZE + 1];
    if crc != U16At(frame[..], 5) {
      return CrcMismatch, isAck, sequence;
    }
    e, isAck, sequence := NoError, frame[2] == 0xF1, frame[HEADER_SIZE];
  }

  lemma SameField(storage: bytes, i: nat)
    requires |storage| >= CONTROL_SIZE && i + 2 <= CONTROL_SIZE
    ensures U16At(storage[..CONTROL_SIZE], i) == U16At(storage, i)
  {
  }

  /** What the device's sender makes of a stored frame while it waits for the answer to `sequence`. */
  function DeviceJudge(storage: bytes, sequence: byte): Link.Answer
    requires |storage| >= CONTROL_SIZE
  {
    match ControlOf(storage)
    case Err(InvalidArgument) => Link.Unrelated
    case Err(_) => Link.Malformed
    case Ok((isAck, q)) =>
      if q != sequence then Link.Unrelated else if isAck then Link.Acknowledged else Link.Refused
  }

  /** The device takes a stored frame for data, and keeps it for the next receive. */
  predicate DeviceKeeps(storage: bytes)
    requires |storage| >= CONTROL_SIZE
  {
    ControlOf(storage) == Err(InvalidArgument)
  }

  lemma ControlOfFrame(storage: bytes, f: Frame)
    requires |storage| >= MAX_SIZE && storage[..HEADER_SIZE + |f.payload|] == Encode(f)
    ensures ControlOf(storage) ==
      if IsControl(f) && |f.payload| == 1 then Ok((f.kind == Ack, f.payload[0])) else Err(InvalidArgument)
  {
    hide Crc16, U16At, U16Be;
    assert storage[..HEADER_SIZE] == Header(KindCode(f.kind), f.payload) by {
      assert storage[..HEADER_SIZE] == Encode(f)[..HEADER_SIZE];
    }
    HeaderFields(KindCode(f.kind), f.payload, storage);
    KindCodes(f.kind, 0xF1);
    if |f.payload| == 1 {
      assert storage[HEADER_SIZE..CONTROL_SIZE] == Encode(f)[HEADER_SIZE..] == f.payload;
    }
  }

  /** Where the two ends part: for every well-formed frame, host and device draw the same conclusion from
      it, whatever they wait for, if and only if it is a data frame or has a payload of one byte; and then
      they also agree on keeping it. The host reads the first payload byte of an answer of any length and
      raises if there is none; the device takes both for data. */
  lemma AnswersAlike(storage: bytes, f: Frame)
    requires |storage| >= MAX_SIZE && storage[..HEADER_SIZE + |f.payload|] == Encode(f)
    ensures (forall q :: DeviceJudge(storage, q) == Link.Judge(f, q)) <==> !IsControl(f) || |f.payload| == 1
    ensures (DeviceKeeps(storage) <==> !IsControl(f)) <==> !IsControl(f) || |f.payload| == 1
  {
    hide ControlOf;
    ControlOfFrame(storage, f);
    var q := if f.payload == [] then 0 else f.payload[0];
    if IsControl(f) && |f.payload| != 1 {
      assert DeviceJudge(storage, q) == Link.Unrelated;
      assert Link.Judge(f, q) != Link.Unrelated;
    }
  }

  /** An answer whose number was changed on the way is no data to the device either: the CRC tells, and the
      sender writes again. */
  lemma CorruptedAnswer(storage: bytes, isAck: bool, sequence: byte, q: byte)
    requires |storage| >= MAX_SIZE && storage[..HEADER_SIZE] == Encode(Answer(isAck, sequence))[..HEADER_SIZE]
    requires storage[HEADER_SIZE] != sequence
    ensures ControlOf(storage) == Err(CrcMismatch) && !DeviceKeeps(storage)
    ensures DeviceJudge(storage, q) == Link.Malformed
  {
    hide Crc16, U16At, U16Be, Bits;
    var f := Answer(isAck, sequence);
    assert storage[..HEADER_SIZE] == Header(KindCode(f.kind), f.payload);
    HeaderFields(KindCode(f.kind), f.payload, storage);
    KindCodes(f.kind, 0xF1);
    BurstChangesCrc([sequence], [storage[HEADER_SIZE]], 0, 8);
    assert storage[HEADER_SIZE..CONTROL_SIZE] == [storage[HEADER_SIZE]];
  }

  /** The answers are those the host's sender acts on. */
  lemma AnswersMean(isAck: bool, sequence: byte)
    ensures Link.Judge(Answer(isAck, sequence), sequence) == if isAck then Link.Acknowledged else Link.Refused
  {
  }
}
