/** What the device's receiver does with one stored frame (device/src/factory_session.c, the body of
    `receive_one_packet`), and where that differs from the host's receiver. */
module DeviceReactions {
  import opened Bytes
  import opened Crc
  import opened Frames
  import opened Fragmenter
  import opened Assembler
  import opened DeviceUart
  import opened Reader
  import Link

  /** `factory_frame_get_sequence`: it reads the storage, zeroed behind the frame, without looking at the
      size of the payload. */
  function SequenceIn(raw: bytes): Option<byte>
    requires WholeFrame(raw)
  {
    match raw[2]
    case 0x01 => Some(SINGLE_SEQUENCE)
    case 0x02 => Some(Fill(raw)[HEADER_SIZE + 4])
    case 0x03 => Some(Fill(raw)[HEADER_SIZE])
    case 0xF1 => Some(Fill(raw)[HEADER_SIZE])
    case 0xF2 => Some(Fill(raw)[HEADER_SIZE])
    case _ => None
  }

  /** The frame sent back, the assembly afterwards, whether it was the assembler that took the frame, and
      the return code if the loop ends here (0 if it goes on). */
  datatype Reaction = Reaction(reply: Option<Frame>, next: DeviceAssembly, taken: bool, code: int)

  function React(d: DeviceAssembly, raw: bytes): Reaction
    requires WholeFrame(raw)
  {
    if raw[2] == 0xF1 || raw[2] == 0xF2 then Reaction(None, d, false, 0)
    else if SequenceIn(raw).None? then Reaction(None, d, false, -5)
    else
      var sequence := SequenceIn(raw).value;
      if raw[2] == 0x03 && sequence < d.sequence then Reaction(Some(AckFor(sequence)), d, false, 0)
      else if raw[2] == 0x02 && d.sequence > 0 && sequence == 0 then Reaction(Some(AckFor(sequence)), d, false, 0)
      else
        var (e, next) := DeviceAccept(d, raw);
        if e != NoError then Reaction(Some(NackFor(sequence)), next, false, -6)
        else Reaction(Some(AckFor(sequence)), next, true, 0)
  }

  /** The loop goes on without an error, or ends with one of two codes. */
  lemma ReactCodes(d: DeviceAssembly, raw: bytes)
    requires WholeFrame(raw) && !d.error && !d.finished
    ensures var x := React(d, raw);
      && x.code in {0, -5, -6} && (x.taken ==> x.code == 0)
      && (x.code == 0 ==> !x.next.error)
      && (x.reply.None? ==> !x.taken)
  {
    hide U16At, Fill, HeaderError, DevicePayload;
    AcceptKeepsError(d, raw);
  }

  /** Which code it is: one for a frame of no known type, one for a refused frame, which is answered with a NACK
      and fails the assembler; and the assembler has taken the frame exactly if it holds something new and has
      not failed. */
  lemma CodesExact(d: DeviceAssembly, raw: bytes)
    requires WholeFrame(raw) && !d.error && !d.finished
    ensures var x := React(d, raw);
      && (x.code == -5 <==> raw[2] !in {0x01, 0x02, 0x03, 0xF1, 0xF2})
      && (x.code == -6 <==> x.reply.Some? && x.reply.value.kind == Nack)
      && (x.code == -6 <==> x.next == d.(finished := true, error := true))
      && (x.taken <==> x.next != d && !x.next.error)
  {
    hide U16At, Fill, HeaderError, DeviceAccept;
    AcceptChanges(d, raw);
    if |raw| >= 12 {
      FilledByte(raw, 11);
    }
  }

  lemma FilledByte(raw: bytes, i: nat)
    requires 2 <= |raw| <= MAX_SIZE && i < |raw|
    ensures Fill(raw)[i] == raw[i]
  {
  }

  lemma AcceptChanges(d: DeviceAssembly, raw: bytes)
    requires WholeFrame(raw) && !d.error && !d.finished
    ensures var (e, next) := DeviceAccept(d, raw);
      if e == NoError
      then !next.error && (next != d || (raw[2] == 0x02 && |raw| >= 12 && raw[11] == 0 && d.sequence > 0))
      else next == d.(finished := true, error := true)
  {
    hide U16At, Crc16, U32At;
  }

  lemma AcceptKeepsError(d: DeviceAssembly, raw: bytes)
    requires WholeFrame(raw)
    ensures DeviceAccept(d, raw).0 == NoError ==> !d.error && !DeviceAccept(d, raw).1.error
  {
    hide U16At, Crc16;
  }

  /** Both receivers answer alike, go on or give up alike, and hold the same if they go on. */
  predicate Alike(x: Link.Reaction, y: Reaction) {
    && y.reply == x.reply && (y.code == 0 <==> x.failure.None?)
    && (x.failure.None? ==> Matches(x.next, y.next))
  }

  lemma WholeEncode(f: Frame)
    ensures WholeFrame(Encode(f))
  {
    hide Encode, U16At;
    EncodeStarts(f);
  }

  lemma FilledPayload(f: Frame)
    ensures WholeFrame(Encode(f))
    ensures forall i :: 0 <= i < MAX_SIZE - HEADER_SIZE ==>
      Fill(Encode(f))[HEADER_SIZE + i] == if i < |f.payload| then f.payload[i] else 0
  {
    hide Encode, U16At;
    WholeEncode(f);
    EncodedPayload(f);
    var raw := Encode(f);
    forall i | 0 <= i < MAX_SIZE - HEADER_SIZE
      ensures Fill(raw)[HEADER_SIZE + i] == if i < |f.payload| then f.payload[i] else 0
    {
      assert i < |f.payload| ==> raw[HEADER_SIZE + i] == raw[HEADER_SIZE..][i];
    }
  }

  lemma EncodedPayload(f: Frame)
    ensures Encode(f)[HEADER_SIZE..] == f.payload && Encode(f)[2] == KindCode(f.kind)
  {
    hide Crc16;
    EncodedFields(f);
  }

  lemma SequenceOf(f: Frame)
    ensures WholeFrame(Encode(f)) && SequenceIn(Encode(f)).Some?
    ensures Sequence(f).Ok? ==> SequenceIn(Encode(f)) == Some(Sequence(f).value)
  {
    hide Encode, U16At, Fill;
    FilledPayload(f);
    EncodedPayload(f);
  }

  /** The frames to which both receivers react alike: before the byte counter wraps, control frames and those
      with a sequence byte; where it has wrapped, only control frames, SINGLE frames, and FIRST frames with
      a wrong number. */
  predicate Uncontested(expected: nat, f: Frame) {
    || IsControl(f)
    || (if expected <= 255 then Sequence(f).Ok?
        else f.kind == Single || (f.kind == First && Sequence(f).Ok? && Sequence(f).value != 0))
  }

  /** For every well-formed frame and every state an unfinished assembly can be in: host and device react
      alike if and only if the frame is uncontested there. On a data frame too short for a sequence byte the
      host raises without an answer, while the device answers for number 0. After 255 CONSECUTIVE frames
      the host acknowledges every numbered frame as a duplicate, while the device takes number 0, starts
      over on a FIRST frame, and refuses the rest. */
  lemma ReactsAlike(h: Assembly, d: DeviceAssembly, f: Frame)
    requires h.capacity >= MAX_DATA_SIZE && Sound(h) && Matches(h, d) && !h.finished
    ensures WholeFrame(Encode(f))
    ensures Alike(Link.React(h, f), React(d, Encode(f))) <==> Uncontested(h.expected, f)
  {
    hide Encode, U16At, SequenceIn, DeviceAccept, Sequence, WholeFrame;
    SequenceOf(f);
    EncodedPayload(f);
    WholeStored(Encode(f));
    if !IsControl(f) {
      AgreeStep(h, d, f);
      if h.expected <= 255 {
        hide Accept, Sound;
        NoWrapYet(h, f);
      } else {
        WrappedDiffers(h, d, f);
      }
    }
  }

  /** Behind the wrap the device acts on frames the host takes for duplicates. */
  lemma WrappedDiffers(h: Assembly, d: DeviceAssembly, f: Frame)
    requires h.capacity >= MAX_DATA_SIZE && Sound(h) && Matches(h, d) && !h.finished
    requires h.expected == 256 && !IsControl(f)
    ensures WholeFrame(Encode(f))
    ensures Alike(Link.React(h, f), React(d, Encode(f))) <==> Uncontested(256, f)
  {
    hide Encode, U16At, U32At, SequenceIn, DeviceAccept, WholeFrame, Accept;
    SequenceOf(f);
    EncodedPayload(f);
    WholeStored(Encode(f));
    AgreeStep(h, d, f);
    DeviceOnPayload(d, f);
    assert DeviceAccept(d, Encode(f)) == DevicePayload(d, KindCode(f.kind), f.payload);
  }

  lemma WholeStored(raw: bytes)
    requires WholeFrame(raw)
    ensures |raw| >= HEADER_SIZE && |raw| >= HEADER_SIZE + U16At(raw, 3)
  {
  }

  lemma NoWrapYet(h: Assembly, f: Frame)
    requires h.expected <= 255
    ensures !WrapPoint(h, f)
  {
  }

  // ---------------------------------------------------------------------------
  // Runs

  /** The device's run over a sequence of stored frames, while none of them ends it. */
  function ReactAll(d: DeviceAssembly, raws: seq<bytes>): Option<(seq<Frame>, DeviceAssembly)>
    requires forall i :: 0 <= i < |raws| ==> WholeFrame(raws[i])
  {
    if raws == [] then Some(([], d))
    else match ReactAll(d, raws[..|raws| - 1])
      case None => None
      case Some((sent, t)) =>
        var r := React(t, raws[|raws| - 1]);
        if t.finished || r.code != 0 then None
        else Some((sent + (if r.reply.Some? then [r.reply.value] else []), r.next))
  }

  lemma ReactAllSnoc(d: DeviceAssembly, raws: seq<bytes>, raw: bytes)
    requires (forall i :: 0 <= i < |raws| ==> WholeFrame(raws[i])) && WholeFrame(raw)
    requires ReactAll(d, raws).Some?
    ensures var (sent, t) := ReactAll(d, raws).value;
      ReactAll(d, raws + [raw]) ==
        if t.finished || React(t, raw).code != 0 then None
        else Some((sent + (if React(t, raw).reply.Some? then [React(t, raw).reply.value] else []), React(t, raw).next))
  {
    assert (raws + [raw])[..|raws|] == raws;
  }
}
