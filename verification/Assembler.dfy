/** Putting a packet together again: what both assemblers accept, the two stateful classes, and
    where they differ (pc/src/frame/assembler.py, device/src/factory_frame.c). */
module Assembler {
  import opened Bytes
  import opened Crc
  import opened Frames
  import opened Fragmenter

  // ---------------------------------------------------------------------------
  // The host's assembler

  datatype Assembly = Assembly(capacity: nat, buffer: bytes, expected: nat, total: nat, finished: bool)

  function Fresh(capacity: nat): Assembly {
    Assembly(capacity, [], 0, 0, false)
  }

  /** What one frame does to an assembly; a rejected frame leaves it as it was. */
  function Accept(s: Assembly, f: Frame): Result<Assembly, FrameError> {
    if s.finished then Err(ArgumentError)
    else match f.kind
      case Single =>
        if |f.payload| > s.capacity then Err(OverflowError)
        else Ok(s.(buffer := f.payload, expected := 0xFF, total := |f.payload|, finished := true))
      case First =>
        if |f.payload| < 5 then Err(ArgumentError)
        else if f.payload[4] != 0 then Err(SequenceError)
        else
          var total := U32At(f.payload, 0);
          var chunk := f.payload[5..];
          if total > s.capacity then Err(OverflowError)
          else if |chunk| > total then Err(OverflowError)
          else Ok(s.(buffer := chunk, expected := 1, total := total, finished := |chunk| == total))
      case Consecutive =>
        if |f.payload| < 1 then Err(ArgumentError)
        else if s.total == 0 then Err(SequenceError)
        else if f.payload[0] != s.expected then Err(SequenceError)
        else
          var next := s.buffer + f.payload[1..];
          if |next| > s.capacity then Err(OverflowError)
          else if |next| > s.total then Err(OverflowError)
          else Ok(s.(buffer := next, expected := s.expected + 1, finished := |next| == s.total))
      case _ => Err(ArgumentError)
  }

  /** The assembly after a sequence of frames, if every one of them is accepted. */
  function AcceptAll(s: Assembly, frames: seq<Frame>): Option<Assembly> {
    if frames == [] then Some(s)
    else match AcceptAll(s, frames[..|frames| - 1])
      case None => None
      case Some(t) =>
        match Accept(t, frames[|frames| - 1])
        case Ok(u) => Some(u)
        case Err(_) => None
  }

  lemma AcceptAllSnoc(s: Assembly, frames: seq<Frame>, f: Frame)
    ensures AcceptAll(s, []) == Some(s)
    ensures AcceptAll(s, frames).Some? ==>
      AcceptAll(s, frames + [f]) ==
        match Accept(AcceptAll(s, frames).value, f) case Ok(u) => Some(u) case Err(_) => None
    ensures AcceptAll(s, frames).None? ==> AcceptAll(s, frames + [f]).None?
  {
    assert (frames + [f])[..|frames|] == frames;
  }

  class FrameAssembler {
    const packetCapacity: nat
    var buffer: bytes
    var expectedSequence: nat
    var totalSize: nat
    var isFinished: bool

    ghost function View(): Assembly
      reads this
    {
      Assembly(packetCapacity, buffer, expectedSequence, totalSize, isFinished)
    }

    constructor (packetCapacity: nat)
      requires packetCapacity > 0
      ensures View() == Fresh(packetCapacity)
    {
      this.packetCapacity := packetCapacity;
      buffer, expectedSequence, totalSize, isFinished := [], 0, 0, false;
    }

    method Reset()
      modifies this
      ensures View() == Fresh(packetCapacity)
    {
      buffer, expectedSequence, totalSize, isFinished := [], 0, 0, false;
    }

    method Process(frame: Frame) returns (r: Result<(), FrameError>)
      modifies this
      ensures match Accept(old(View()), frame)
        case Ok(next) => r == Ok(()) && View() == next
        case Err(e) => r == Err(e) && View() == old(View())
    {
      if isFinished {
        return Err(ArgumentError);
      }
      match frame.kind {
        case Single =>
          if |frame.payload| > packetCapacity {
            return Err(OverflowError);
          }
          buffer := frame.payload;
          expectedSequence, totalSize, isFinished := 0xFF, |frame.payload|, true;
          r := Ok(());
        case First =>
          r := ProcessFirst(frame.payload);
        case Consecutive =>
          r := ProcessConsecutive(frame.payload);
        case _ =>
          r := Err(ArgumentError);
      }
    }

    method ProcessFirst(payload: bytes) returns (r: Result<(), FrameError>)
      requires !isFinished && |payload| <= MAX_DATA_SIZE
      modifies this
      ensures match Accept(old(View()), FrameOf(First, payload))
        case Ok(next) => r == Ok(()) && View() == next
        case Err(e) => r == Err(e) && View() == old(View())
    {
      if |payload| < 5 {
        return Err(ArgumentError);
      }
      if payload[4] != 0 {
        return Err(SequenceError);
      }
      var total := U32At(payload, 0);
      var chunk := payload[5..];
      if total > packetCapacity {
        return Err(OverflowError);
      }
      if |chunk| > total {
        return Err(OverflowError);
      }
      buffer, totalSize, expectedSequence := chunk, total, 1;
      if |buffer| == totalSize {
        isFinished := true;
      }
      r := Ok(());
    }

    method ProcessConsecutive(payload: bytes) returns (r: Result<(), FrameError>)
      requires !isFinished && |payload| <= MAX_DATA_SIZE
      modifies this
      ensures match Accept(old(View()), FrameOf(Consecutive, payload))
        case Ok(next) => r == Ok(()) && View() == next
        case Err(e) => r == Err(e) && View() == old(View())
    {
      if |payload| < 1 {
        return Err(ArgumentError);
      }
      if totalSize == 0 {
        return Err(SequenceError);
      }
      if payload[0] != expectedSequence {
        return Err(SequenceError);
      }
      var chunk := payload[1..];
      var nextSize := |buffer| + |chunk|;
      if nextSize > packetCapacity {
        return Err(OverflowError);
      }
      if nextSize > totalSize {
        return Err(OverflowError);
      }
      buffer := buffer + chunk;
      expectedSequence := expectedSequence + 1;
      if |buffer| == totalSize {
        isFinished := true;
      }
      r := Ok(());
    }
  }

  // ---------------------------------------------------------------------------
  // What a finished assembly means

  /** The packet bytes a data frame carries. */
  function Data(f: Frame): bytes {
    match f.kind
    case Single => f.payload
    case First => if |f.payload| < 5 then [] else f.payload[5..]
    case _ => if |f.payload| < 1 then [] else f.payload[1..]
  }

  function DataOf(frames: seq<Frame>): (r: seq<bytes>)
    ensures |r| == |frames|
  {
    seq(|frames|, k requires 0 <= k < |frames| => Data(frames[k]))
  }

  /** A FIRST frame declaring `total`, then CONSECUTIVE frames numbered 1, 2, 3, ... */
  predicate Numbered(frames: seq<Frame>, total: nat) {
    && frames != []
    && frames[0].kind == First && |frames[0].payload| >= 5
    && U32At(frames[0].payload, 0) == total && frames[0].payload[4] == 0
    && forall k :: 1 <= k < |frames| ==>
         frames[k].kind == Consecutive && |frames[k].payload| >= 1 && frames[k].payload[0] == k
  }

  /** The frames are one transmission of packet `p`: a single frame, or a numbered run whose chunks,
      in order, are `p` and whose FIRST frame declares exactly its size. */
  predicate Transmits(frames: seq<Frame>, p: bytes) {
    || (|frames| == 1 && frames[0].kind == Single && frames[0].payload == p)
    || (Numbered(frames, |p|) && Flatten(DataOf(frames)) == p)
  }

  /** Where the current packet starts: at the latest frame that is not CONSECUTIVE. */
  function Start(frames: seq<Frame>): (i: nat)
    requires frames != []
    ensures i < |frames|
  {
    if |frames| == 1 || frames[|frames| - 1].kind != Consecutive then |frames| - 1
    else Start(frames[..|frames| - 1])
  }

  /** The state an assembly is in, told from the frames it has accepted and nothing else. */
  predicate Explains(frames: seq<Frame>, s: Assembly) {
    if frames == [] then s == Fresh(s.capacity)
    else
      var run := frames[Start(frames)..];
      && |s.buffer| <= s.total <= s.capacity
      && s.buffer == Flatten(DataOf(run))
      && if s.finished then Transmits(run, s.buffer) && s.total == |s.buffer|
         else Numbered(run, s.total) && s.expected == |run| && |s.buffer| < s.total
  }

  lemma DataOfSnoc(frames: seq<Frame>, f: Frame)
    ensures Flatten(DataOf(frames + [f])) == Flatten(DataOf(frames)) + Data(f)
  {
    assert DataOf(frames + [f]) == DataOf(frames) + [Data(f)];
    FlattenAppend(DataOf(frames), [Data(f)]);
    assert Flatten([Data(f)]) == Data(f);
  }

  lemma DataOfOne(f: Frame)
    ensures Flatten(DataOf([f])) == Data(f)
  {
    assert DataOf([f]) == [Data(f)];
    assert Flatten([Data(f)]) == Data(f);
  }

  lemma ExplainsStep(frames: seq<Frame>, s: Assembly, f: Frame)
    requires Explains(frames, s) && Accept(s, f).Ok?
    ensures Explains(frames + [f], Accept(s, f).value) && Accept(s, f).value.capacity == s.capacity
  {
    hide U32At;
    var all := frames + [f];
    if f.kind == Consecutive {
      assert frames != [];
      var run := frames[Start(frames)..];
      assert all[..|all| - 1] == frames;
      assert all[Start(all)..] == run + [f];
      hide Start;
      DataOfSnoc(run, f);
      NumberedSnoc(run, f, s.total);
      hide DataOf, Numbered;
    } else {
      assert all[Start(all)..] == [f];
      DataOfOne(f);
    }
  }

  lemma NumberedSnoc(run: seq<Frame>, f: Frame, total: nat)
    requires Numbered(run, total) && f.kind == Consecutive && |f.payload| >= 1 && f.payload[0] == |run|
    ensures Numbered(run + [f], total)
  {
  }

  /** Soundness over every run: whatever frames arrive, in whatever order, as long as they are
      accepted the assembly is explained by them. In particular it never outgrows its declared size
      or its capacity, and a finished packet is one transmission: a SINGLE frame, or the chunks of
      the latest FIRST frame and all that followed it, in order, of exactly the declared size. */
  lemma {:induction false} AssemblySound(capacity: nat, frames: seq<Frame>)
    requires AcceptAll(Fresh(capacity), frames).Some?
    ensures var s := AcceptAll(Fresh(capacity), frames).value;
      s.capacity == capacity && Explains(frames, s)
  {
    hide Accept, Explains;
    if frames == [] {
      NothingExplains(capacity);
    } else {
      var init, last := frames[..|frames| - 1], frames[|frames| - 1];
      AssemblySound(capacity, init);
      ExplainsStep(init, AcceptAll(Fresh(capacity), init).value, last);
      assert frames == init + [last];
    }
  }

  lemma NothingExplains(capacity: nat)
    ensures Explains([], Fresh(capacity))
  {
  }

  /** Conversely, every transmission that fits is accepted by every assembly that is not finished,
      whatever it held before, and finishes it with that packet at its last frame. */
  lemma TransmissionAccepted(s: Assembly, frames: seq<Frame>, p: bytes)
    requires !s.finished && Transmits(frames, p) && |p| <= s.capacity
    requires forall k :: 1 <= k < |frames| ==> |Flatten(DataOf(frames[..k]))| < |p|
    ensures AcceptAll(s, frames).Some?
    ensures var t := AcceptAll(s, frames).value; t.finished && t.buffer == p
  {
    if frames[0].kind == Single {
      assert frames[..0] == [];
      assert AcceptAll(s, frames) == match Accept(s, frames[0]) case Ok(u) => Some(u) case Err(_) => None;
    } else {
      RunAccepted(s, frames, p, |frames|);
      assert frames[..|frames|] == frames;
    }
  }

  lemma {:induction false} RunAccepted(s: Assembly, frames: seq<Frame>, p: bytes, n: nat)
    requires !s.finished && Numbered(frames, |p|) && Flatten(DataOf(frames)) == p && |p| <= s.capacity
    requires forall k :: 1 <= k < |frames| ==> |Flatten(DataOf(frames[..k]))| < |p|
    requires 1 <= n <= |frames|
    ensures AcceptAll(s, frames[..n]) ==
      Some(s.(buffer := Flatten(DataOf(frames[..n])), expected := n, total := |p|, finished := n == |frames|))
  {
    hide AcceptAll;
    var last := frames[n - 1];
    assert frames[..n] == frames[..n - 1] + [last] && frames[..|frames|] == frames;
    AcceptAllSnoc(s, frames[..n - 1], last);
    DataOfPrefix(frames, n);
    if n == 1 {
      assert frames[..0] == [] && frames[..1] == [last];
      DataOfOne(last);
    } else {
      DataOfSnoc(frames[..n - 1], last);
      RunAccepted(s, frames, p, n - 1);
    }
  }

  lemma DataOfPrefix(frames: seq<Frame>, n: nat)
    requires n <= |frames|
    ensures Flatten(DataOf(frames[..n])) <= Flatten(DataOf(frames))
  {
    assert DataOf(frames) == DataOf(frames[..n]) + DataOf(frames[n..]);
    FlattenAppend(DataOf(frames[..n]), DataOf(frames[n..]));
  }

  // ---------------------------------------------------------------------------
  // Fragmenting and reassembling

  lemma PlanData(packet: bytes, k: nat)
    requires 1 <= |packet| <= MAX_FRAGMENTED_SIZE && k < FrameCount(|packet|)
    ensures k <= 255
    ensures |packet| > MAX_DATA_SIZE ==> Data(Plan(packet)[k]) == Chunk(packet, k)
    ensures |packet| <= MAX_DATA_SIZE ==> Data(Plan(packet)[k]) == packet
  {
    FrameCountBounds(|packet|);
  }

  /** The first `k` frames of the plan carry the first bytes of the packet, up to the next chunk. */
  lemma PlanPrefixData(packet: bytes, k: nat)
    requires MAX_DATA_SIZE < |packet| <= MAX_FRAGMENTED_SIZE && k <= FrameCount(|packet|)
    ensures Flatten(DataOf(Plan(packet)[..k])) == packet[..Min(ChunkStart(k), |packet|)]
  {
    var chunks := seq(k, i requires 0 <= i < k => Chunk(packet, i));
    assert DataOf(Plan(packet)[..k]) == chunks by {
      forall i | 0 <= i < k ensures Data(Plan(packet)[i]) == Chunk(packet, i) {
        PlanData(packet, i);
      }
    }
    ChunksCover(packet, k);
  }

  lemma PlanTransmits(packet: bytes)
    requires 1 <= |packet| <= MAX_FRAGMENTED_SIZE
    ensures Transmits(Plan(packet), packet)
    ensures forall k :: 1 <= k < |Plan(packet)| ==> |Flatten(DataOf(Plan(packet)[..k]))| < |packet|
  {
    var frames, n := Plan(packet), FrameCount(|packet|);
    FrameCountBounds(|packet|);
    if |packet| <= MAX_DATA_SIZE {
      SingleOfPlan(packet);
    } else {
      assert frames[0].payload[0..4] == U32Be(|packet|);
      U32RoundTrip(|packet|, frames[0].payload, 0);
      PlanPrefixData(packet, n);
      assert frames[..n] == frames;
      forall k | 1 <= k < n ensures |Flatten(DataOf(frames[..k]))| < |packet| {
        PlanPrefixData(packet, k);
        ChunkStartBelow(|packet|, k);
      }
    }
  }

  /** The round trip: the host's plan finishes a fresh assembly with exactly the packet, not before
      its last frame, if and only if the packet fits; otherwise its first frame is refused. */
  lemma RoundTrip(packet: bytes, capacity: nat)
    requires 1 <= |packet| <= MAX_FRAGMENTED_SIZE
    ensures |packet| <= capacity ==>
      && AcceptAll(Fresh(capacity), Plan(packet)).Some?
      && AcceptAll(Fresh(capacity), Plan(packet)).value.finished
      && AcceptAll(Fresh(capacity), Plan(packet)).value.buffer == packet
    ensures |packet| > capacity ==> Accept(Fresh(capacity), Plan(packet)[0]) == Err(OverflowError)
  {
    PlanTransmits(packet);
    if |packet| <= capacity {
      TransmissionAccepted(Fresh(capacity), Plan(packet), packet);
    }
  }

  /** After `k` frames of the plan the assembly holds the prefix those frames carry and expects the
      next one. */
  lemma PlanPrefixState(packet: bytes, capacity: nat, k: nat)
    requires 1 <= |packet| <= MAX_FRAGMENTED_SIZE && |packet| <= capacity && k <= FrameCount(|packet|)
    ensures AcceptAll(Fresh(capacity), Plan(packet)[..k]).Some?
    ensures var s := AcceptAll(Fresh(capacity), Plan(packet)[..k]).value;
      && s.capacity == capacity
      && s.finished == (k == FrameCount(|packet|))
      && (!s.finished ==> s.expected == k && s.buffer == if k == 0 then [] else packet[..ChunkStart(k)])
      && (s.finished ==> s.buffer == packet)
  {
    var frames, n := Plan(packet), FrameCount(|packet|);
    assert frames[..0] == [] && frames[..n] == frames;
    PlanTransmits(packet);
    if k == n {
      RoundTrip(packet, capacity);
      AssemblySound(capacity, frames);
    } else if k > 0 {
      FrameCountBounds(|packet|);
      PlanPrefixData(packet, n);
      RunAccepted(Fresh(capacity), frames, packet, k);
      PlanPrefixData(packet, k);
      ChunkStartBelow(|packet|, k);
    }
  }

  // ---------------------------------------------------------------------------
  // The device's assembler

  /** The device's context; `buffer` is the filled part of the caller's packet buffer. */
  datatype DeviceAssembly = DeviceAssembly(
    capacity: nat, buffer: bytes, sequence: byte, total: nat, finished: bool, error: bool)

  function DeviceFresh(capacity: nat): DeviceAssembly {
    DeviceAssembly(capacity, [], 0, 0, false, false)
  }

  /** `factory_frame_fail`: an error also ends the assembly. */
  function Fail(s: DeviceAssembly, e: DeviceError): (DeviceError, DeviceAssembly) {
    (e, s.(finished := true, error := true))
  }

  /** The part of the device's assembler behind the header checks. */
  function DevicePayload(s: DeviceAssembly, code: byte, payload: bytes): (DeviceError, DeviceAssembly) {
    match code
    case 0x01 => (NoError, s.(buffer := payload, sequence := 0xFF, finished := true))
    case 0x02 =>
      if |payload| < 5 then Fail(s, InvalidArgument)
      else if payload[4] != 0 then Fail(s, UnexpectedSequence)
      else if U32At(payload, 0) > s.capacity then Fail(s, BufferOverflow)
      else if |payload| - 5 > U32At(payload, 0) then Fail(s, BufferOverflow)
      else (NoError, s.(total := U32At(payload, 0), buffer := payload[5..], sequence := 1,
                        finished := |payload| - 5 == U32At(payload, 0)))
    case 0x03 =>
      if |payload| < 1 then Fail(s, InvalidArgument)
      else if s.total == 0 then Fail(s, UnexpectedSequence)
      else if payload[0] != s.sequence then Fail(s, UnexpectedSequence)
      else if |s.buffer| + |payload| - 1 > s.capacity then Fail(s, BufferOverflow)
      else if |s.buffer| + |payload| - 1 > s.total then Fail(s, BufferOverflow)
      else (NoError, s.(buffer := s.buffer + payload[1..], sequence := if s.sequence == 255 then 0 else s.sequence + 1,
                        finished := |s.buffer| + |payload| - 1 == s.total))
    case _ => Fail(s, InvalidArgument)
  }

  /** The checks on the header of a stored frame, in the order in which they are made. */
  function HeaderError(capacity: nat, raw: bytes): DeviceError
    requires |raw| >= HEADER_SIZE && |raw| >= HEADER_SIZE + U16At(raw, 3)
  {
    var size := U16At(raw, 3);
    if U16At(raw, 0) != MAGIC then InvalidMagic
    else if size > capacity then BufferOverflow
    else if Crc16(raw[HEADER_SIZE..HEADER_SIZE + size]) != U16At(raw, 5) then CrcMismatch
    else NoError
  }

  /** What one stored frame does to the device's context. */
  function DeviceAccept(s: DeviceAssembly, raw: bytes): (DeviceError, DeviceAssembly)
    requires |raw| >= HEADER_SIZE && |raw| >= HEADER_SIZE + U16At(raw, 3)
  {
    if s.finished || s.error then (InvalidArgument, s)
    else if HeaderError(s.capacity, raw) != NoError then Fail(s, HeaderError(s.capacity, raw))
    else DevicePayload(s, raw[2], raw[HEADER_SIZE..HEADER_SIZE + U16At(raw, 3)])
  }

  class DeviceAssembler {
    const packet: array<byte>
    var hasFinished: bool
    var hasError: bool
    var sequence: byte
    var totalSize: nat
    var packetSize: nat

    ghost predicate Valid()
      reads this
    {
      packetSize <= packet.Length
    }

    ghost function View(): DeviceAssembly
      requires Valid()
      reads this, packet
    {
      DeviceAssembly(packet.Length, packet[..packetSize], sequence, totalSize, hasFinished, hasError)
    }

    constructor (packet: array<byte>)
      ensures Valid() && View() == DeviceFresh(packet.Length) && this.packet == packet
    {
      this.packet := packet;
      hasFinished, hasError, sequence, totalSize, packetSize := false, false, 0, 0, 0;
    }

    method Init()
      modifies this
      ensures Valid() && View() == DeviceFresh(packet.Length)
    {
      hasFinished, hasError, sequence, totalSize, packetSize := false, false, 0, 0, 0;
    }

    method FailWith(error: DeviceError) returns (e: DeviceError)
      requires Valid()
      modifies this
      ensures Valid() && (e, View()) == Fail(old(View()), error)
    {
      hasError, hasFinished := true, true;
      e := error;
    }

    /** `factory_frame_assembler_process`, on any stored bytes whose size field stays inside the
        storage. Every write lands inside the packet buffer. */
    method Process(frame: array<byte>) returns (e: DeviceError)
      requires Valid() && frame != packet
      requires frame.Length >= HEADER_SIZE && frame.Length >= HEADER_SIZE + U16At(frame[..], 3)
      modifies this, packet
      ensures Valid() && (e, View()) == DeviceAccept(old(View()), old(frame[..]))
    {
      hide HeaderError, DevicePayload, U16At, Crc16, DeviceAccept;
      ghost var s, raw := View(), frame[..];
      if hasFinished || hasError {
        AlreadyDone(s, raw);
        return InvalidArgument;
      }
      HeaderDecides(s, raw);
      e := CheckHeader(frame);
      if e != NoError {
        e := FailWith(e);
        return;
      }
      e := ProcessPayload(frame);
    }

    /** The part behind the header checks. */
    method ProcessPayload(frame: array<byte>) returns (e: DeviceError)
      requires Valid() && frame != packet && !hasFinished && !hasError
      requires frame.Length >= HEADER_SIZE && frame.Length >= HEADER_SIZE + U16At(frame[..], 3)
      requires U16At(frame[..], 3) <= packet.Length
      modifies this, packet
      ensures Valid()
      ensures var raw := old(frame[..]);
        (e, View()) == DevicePayload(old(View()), raw[2], raw[HEADER_SIZE..HEADER_SIZE + U16At(raw, 3)])
    {
      hide DevicePayload, U16At;
      var size := U16At(frame[..], 3);
      ghost var payload := frame[HEADER_SIZE..HEADER_SIZE + size];
      assert payload == frame[..][HEADER_SIZE..HEADER_SIZE + size];
      e := Dispatch(frame, size, payload);
    }

    method CheckHeader(frame: array<byte>) returns (e: DeviceError)
      requires frame.Length >= HEADER_SIZE && frame.Length >= HEADER_SIZE + U16At(frame[..], 3)
      ensures e == HeaderError(packet.Length, frame[..])
    {
      hide Crc16, U16At;
      MagicBytes(frame[..]);
      if frame[0] != MAGIC_HIGH || frame[1] != MAGIC_LOW {
        return InvalidMagic;
      }
      var size := U16At(frame[..], 3);
      var crc := DeviceCrc16(frame, HEADER_SIZE, size);
      assert frame[HEADER_SIZE..HEADER_SIZE + size] == frame[..][HEADER_SIZE..HEADER_SIZE + size];
      if size > packet.Length {
        return BufferOverflow;
      }
      if crc != U16At(frame[..], 5) {
        return CrcMismatch;
      }
      e := NoError;
    }

    method Dispatch(frame: array<byte>, size: nat, ghost payload: bytes) returns (e: DeviceError)
      requires Valid() && frame != packet && !hasFinished && !hasError
      requires frame.Length >= HEADER_SIZE + size && payload == frame[HEADER_SIZE..HEADER_SIZE + size]
      requires size <= packet.Length
      modifies this, packet
      ensures Valid() && (e, View()) == DevicePayload(old(View()), old(frame[2]), payload)
    {
      if frame[2] == 0x01 {
        CopyBytes(packet, 0, frame, HEADER_SIZE, size);
        packetSize, sequence, hasFinished := size, 0xFF, true;
        assert packet[..size] == payload;
        return NoError;
      }
      if frame[2] == 0x02 {
        e := StoreFirst(frame, size, payload);
        return;
      }
      if frame[2] == 0x03 {
        e := StoreConsecutive(frame, size, payload);
        return;
      }
      e := FailWith(InvalidArgument);
    }

    method StoreFirst(frame: array<byte>, size: nat, ghost payload: bytes) returns (e: DeviceError)
      requires Valid() && frame != packet && !hasFinished && !hasError
      requires frame.Length >= HEADER_SIZE + size && payload == frame[HEADER_SIZE..HEADER_SIZE + size]
      modifies this, packet
      ensures Valid() && (e, View()) == DevicePayload(old(View()), 0x02, payload)
    {
      if size < 5 {
        e := FailWith(InvalidArgument);
        return;
      }
      if frame[HEADER_SIZE + 4] != 0 {
        assert payload[4] != 0;
        e := FailWith(UnexpectedSequence);
        return;
      }
      var total := U32At(frame[HEADER_SIZE..HEADER_SIZE + size], 0);
      var dataSize := size - 5;
      if total > packet.Length || dataSize > total {
        e := FailWith(BufferOverflow);
        return;
      }
      totalSize := total;
      CopyBytes(packet, 0, frame, HEADER_SIZE + 5, dataSize);
      packetSize, sequence := dataSize, 1;
      if packetSize == totalSize {
        hasFinished := true;
      }
      assert packet[..dataSize] == payload[5..];
      e := NoError;
    }

    method StoreConsecutive(frame: array<byte>, size: nat, ghost payload: bytes) returns (e: DeviceError)
      requires Valid() && frame != packet && !hasFinished && !hasError
      requires frame.Length >= HEADER_SIZE + size && payload == frame[HEADER_SIZE..HEADER_SIZE + size]
      modifies this, packet
      ensures Valid() && (e, View()) == DevicePayload(old(View()), 0x03, payload)
    {
      if size < 1 {
        e := FailWith(InvalidArgument);
        return;
      }
      assert frame[HEADER_SIZE] == payload[0];
      if totalSize == 0 || frame[HEADER_SIZE] != sequence {
        e := FailWith(UnexpectedSequence);
        return;
      }
      var dataSize := size - 1;
      if packetSize + dataSize > packet.Length || packetSize + dataSize > totalSize {
        e := FailWith(BufferOverflow);
        return;
      }
      ghost var before := packet[..packetSize];
      CopyBytes(packet, packetSize, frame, HEADER_SIZE + 1, dataSize);
      assert packet[..packetSize + dataSize] == before + payload[1..];
      packetSize := packetSize + dataSize;
      sequence := if sequence == 255 then 0 else sequence + 1;
      if packetSize == totalSize {
        hasFinished := true;
      }
      e := NoError;
    }
  }

  lemma AlreadyDone(s: DeviceAssembly, raw: bytes)
    requires |raw| >= HEADER_SIZE && |raw| >= HEADER_SIZE + U16At(raw, 3)
    requires s.finished || s.error
    ensures DeviceAccept(s, raw) == (InvalidArgument, s)
  {
    hide HeaderError, DevicePayload, U16At;
  }

  lemma HeaderDecides(s: DeviceAssembly, raw: bytes)
    requires |raw| >= HEADER_SIZE && |raw| >= HEADER_SIZE + U16At(raw, 3)
    requires !s.finished && !s.error
    ensures HeaderError(s.capacity, raw) != NoError ==> DeviceAccept(s, raw) == Fail(s, HeaderError(s.capacity, raw))
    ensures HeaderError(s.capacity, raw) == NoError ==>
      && U16At(raw, 3) <= s.capacity
      && DeviceAccept(s, raw) == DevicePayload(s, raw[2], raw[HEADER_SIZE..HEADER_SIZE + U16At(raw, 3)])
  {
    hide DevicePayload, Crc16, U16At;
  }

  lemma MagicBytes(raw: bytes)
    requires |raw| >= 2
    ensures U16At(raw, 0) == MAGIC <==> raw[0] == MAGIC_HIGH && raw[1] == MAGIC_LOW
  {
  }

  /** An error latches: a call after a failed one changes nothing, and a failing call keeps what was
      assembled. */
  lemma ErrorLatches(s: DeviceAssembly, raw: bytes)
    requires |raw| >= HEADER_SIZE && |raw| >= HEADER_SIZE + U16At(raw, 3)
    ensures s.error ==> DeviceAccept(s, raw) == (InvalidArgument, s)
    ensures DeviceAccept(s, raw).0 != NoError && !s.finished && !s.error ==>
      DeviceAccept(s, raw).1 == s.(finished := true, error := true)
  {
    hide HeaderError, DevicePayload, U16At;
    PayloadLatches(s, raw[2], raw[HEADER_SIZE..HEADER_SIZE + U16At(raw, 3)]);
  }

  lemma PayloadLatches(s: DeviceAssembly, code: byte, payload: bytes)
    ensures DevicePayload(s, code, payload).0 != NoError ==>
      DevicePayload(s, code, payload).1 == s.(finished := true, error := true)
  {
  }

  // ---------------------------------------------------------------------------
  // Which error it is

  /** The frame is too short for its own fields, no data at all, or comes after the end. */
  predicate Unusable(s: Assembly, f: Frame) {
    s.finished || IsControl(f) || (f.kind == First && |f.payload| < 5) || (f.kind == Consecutive && f.payload == [])
  }

  /** It has the wrong number, or continues a packet that was not begun. */
  predicate OutOfTurn(s: Assembly, f: Frame) {
    || (f.kind == First && |f.payload| >= 5 && f.payload[4] != 0)
    || (f.kind == Consecutive && f.payload != [] && (s.total == 0 || f.payload[0] != s.expected))
  }

  /** The host's assembler tells three kinds of refusal apart: what it cannot use, what is out of turn, and what
      does not fit the capacity or the declared size; and it takes the rest. */
  lemma RefusalsExact(s: Assembly, f: Frame)
    ensures Accept(s, f) == Err(ArgumentError) <==> Unusable(s, f)
    ensures Accept(s, f) == Err(SequenceError) <==> !Unusable(s, f) && OutOfTurn(s, f)
    ensures Accept(s, f) == Err(OverflowError) <==> Accept(s, f).Err? && !Unusable(s, f) && !OutOfTurn(s, f)
    ensures !Unusable(s, f) && !OutOfTurn(s, f) ==> (Accept(s, f).Ok? <==>
      match f.kind
      case Single => |f.payload| <= s.capacity
      case First => |f.payload| - 5 <= U32At(f.payload, 0) <= s.capacity
      case _ => |s.buffer| + |f.payload| - 1 <= s.capacity && |s.buffer| + |f.payload| - 1 <= s.total)
  {
    hide U32At;
  }

  /** A SINGLE frame is a packet of its own, to both assemblers. */
  lemma SingleTaken(s: Assembly, d: DeviceAssembly, payload: bytes)
    requires |payload| <= MAX_DATA_SIZE && |payload| <= s.capacity && !s.finished
    ensures Accept(s, FrameOf(Single, payload)) == Ok(Assembly(s.capacity, payload, 0xFF, |payload|, true))
    ensures DevicePayload(d, 0x01, payload) ==
      (NoError, DeviceAssembly(d.capacity, payload, 0xFF, d.total, true, d.error))
  {
  }

  // ---------------------------------------------------------------------------
  // Host and device side by side

  /** What is known of an assembly that has only accepted frames. */
  predicate Sound(h: Assembly) {
    && |h.buffer| <= h.total <= h.capacity
    && (!h.finished && h.expected > 0 ==> |h.buffer| < h.total)
    && (!h.finished ==> h.expected <= 256)
  }

  predicate Matches(h: Assembly, d: DeviceAssembly) {
    && d.capacity == h.capacity && !d.error && d.finished == h.finished && d.buffer == h.buffer
    && (!h.finished ==> d.total == h.total && d.sequence == h.expected % 256)
  }

  /** The one point of disagreement: 255 CONSECUTIVE frames were accepted and the packet is still
      incomplete; the device's byte counter reads 0 again, the host waits for 256. */
  predicate WrapPoint(h: Assembly, f: Frame) {
    && !h.finished && h.expected == 256
    && f.kind == Consecutive && |f.payload| >= 1 && f.payload[0] == 0
    && |h.buffer| + |f.payload| - 1 <= h.total
  }

  lemma EncodedFields(f: Frame)
    ensures U16At(Encode(f), 0) == MAGIC && Encode(f)[2] == KindCode(f.kind)
    ensures U16At(Encode(f), 3) == |f.payload| && U16At(Encode(f), 5) == Crc16(f.payload)
    ensures Encode(f)[HEADER_SIZE..HEADER_SIZE + |f.payload|] == f.payload
  {
    hide Crc16;
    var raw := Encode(f);
    assert raw[..HEADER_SIZE] == Header(KindCode(f.kind), f.payload);
    HeaderFields(KindCode(f.kind), f.payload, raw);
  }

  /** The device, too, refuses every payload hit by a burst of at most sixteen bits under an intact
      header, and is then in its error state. */
  lemma DeviceRejectsBurst(s: DeviceAssembly, f: Frame, received: bytes, lo: nat, width: nat)
    requires width <= 16 && BurstApart(f.payload, received, lo, width) && received != f.payload
    requires s.capacity >= MAX_DATA_SIZE && !s.finished && !s.error
    ensures var raw := Encode(f)[..HEADER_SIZE] + received;
      && |raw| >= HEADER_SIZE + U16At(raw, 3)
      && DeviceAccept(s, raw) == (CrcMismatch, s.(finished := true, error := true))
  {
    hide Crc16, U16At, U16Be, DevicePayload;
    var raw := Encode(f)[..HEADER_SIZE] + received;
    assert raw[..HEADER_SIZE] == Header(KindCode(f.kind), f.payload);
    HeaderFields(KindCode(f.kind), f.payload, raw);
    assert raw[HEADER_SIZE..HEADER_SIZE + |f.payload|] == received;
    BurstChangesCrc(f.payload, received, lo, width);
  }

  /** The device's context after a well-formed frame. */
  function DeviceOn(d: DeviceAssembly, f: Frame): (DeviceError, DeviceAssembly) {
    EncodedFields(f);
    DeviceAccept(d, Encode(f))
  }

  /** With room for any one frame, only the payload decides. */
  lemma DeviceOnPayload(d: DeviceAssembly, f: Frame)
    requires d.capacity >= MAX_DATA_SIZE
    ensures DeviceOn(d, f) ==
      if d.finished || d.error then (InvalidArgument, d) else DevicePayload(d, KindCode(f.kind), f.payload)
    ensures DeviceOn(d, f).1.capacity == d.capacity
  {
    hide Crc16, Encode, U16At;
    EncodedFields(f);
  }

  lemma AcceptKeepsSound(h: Assembly, f: Frame)
    requires Sound(h) && Accept(h, f).Ok?
    ensures Sound(Accept(h, f).value) && Accept(h, f).value.capacity == h.capacity
  {
  }

  /** One frame: host and device agree on whether to take it exactly when it is not the wrap point,
      and then they still match. */
  lemma AgreeStep(h: Assembly, d: DeviceAssembly, f: Frame)
    requires h.capacity >= MAX_DATA_SIZE && Sound(h) && Matches(h, d)
    ensures (Accept(h, f).Ok? <==> DeviceOn(d, f).0 == NoError) <==> !WrapPoint(h, f)
    ensures Accept(h, f).Ok? && DeviceOn(d, f).0 == NoError ==>
      Matches(Accept(h, f).value, DeviceOn(d, f).1)
  {
    hide DeviceOn;
    DeviceOnPayload(d, f);
  }

  /** How many frames are taken before the first refusal. */
  function HostTakes(h: Assembly, frames: seq<Frame>): nat
    decreases frames
  {
    if frames == [] || Accept(h, frames[0]).Err? then 0
    else 1 + HostTakes(Accept(h, frames[0]).value, frames[1..])
  }

  function DeviceTakes(d: DeviceAssembly, frames: seq<Frame>): nat
    decreases frames
  {
    if frames == [] || DeviceOn(d, frames[0]).0 != NoError then 0
    else 1 + DeviceTakes(DeviceOn(d, frames[0]).1, frames[1..])
  }

  /** The states when the first refusal, or the end, is reached. */
  function HostAfter(h: Assembly, frames: seq<Frame>): Assembly
    decreases frames
  {
    if frames == [] || Accept(h, frames[0]).Err? then h
    else HostAfter(Accept(h, frames[0]).value, frames[1..])
  }

  function DeviceAfter(d: DeviceAssembly, frames: seq<Frame>): DeviceAssembly
    decreases frames
  {
    if frames == [] || DeviceOn(d, frames[0]).0 != NoError then d
    else DeviceAfter(DeviceOn(d, frames[0]).1, frames[1..])
  }

  /** The run reaches a wrap point while the host is still accepting. */
  predicate WrapsIn(h: Assembly, frames: seq<Frame>)
    decreases frames
  {
    frames != [] && (WrapPoint(h, frames[0])
                     || (Accept(h, frames[0]).Ok? && WrapsIn(Accept(h, frames[0]).value, frames[1..])))
  }

  /** Whole runs of well-formed frames, from any matching states: both take the same prefix exactly
      when the run does not hit the wrap point, and then they hold the same bytes and are finished by
      the same frame. */
  lemma {:induction false} AgreeRun(h: Assembly, d: DeviceAssembly, frames: seq<Frame>)
    requires h.capacity >= MAX_DATA_SIZE && Sound(h) && Matches(h, d)
    ensures HostTakes(h, frames) == DeviceTakes(d, frames) <==> !WrapsIn(h, frames)
    ensures !WrapsIn(h, frames) ==> Matches(HostAfter(h, frames), DeviceAfter(d, frames))
    decreases frames
  {
    hide Accept, DeviceOn, WrapPoint, Sound;
    if frames != [] {
      var f := frames[0];
      AgreeStep(h, d, f);
      if WrapPoint(h, f) {
        WrapPointRefused(h, f);
      }
      if Accept(h, f).Ok? {
        AcceptKeepsSound(h, f);
        AgreeRun(Accept(h, f).value, DeviceOn(d, f).1, frames[1..]);
      }
    }
  }

  lemma WrapPointRefused(h: Assembly, f: Frame)
    requires WrapPoint(h, f)
    ensures Accept(h, f).Err?
  {
  }

  // ---------------------------------------------------------------------------
  // The device reassembles whatever the plan says, too

  /** From the state after `k` planned frames, the rest of the plan is taken without a wrap point. */
  lemma {:induction false} PlanNeverWraps(packet: bytes, capacity: nat, k: nat)
    requires 1 <= |packet| <= MAX_FRAGMENTED_SIZE && |packet| <= capacity && k <= FrameCount(|packet|)
    requires AcceptAll(Fresh(capacity), Plan(packet)[..k]).Some?
    ensures var s, rest := AcceptAll(Fresh(capacity), Plan(packet)[..k]).value, Plan(packet)[k..];
      && !WrapsIn(s, rest) && HostTakes(s, rest) == |rest|
      && HostAfter(s, rest).finished && HostAfter(s, rest).buffer == packet
    decreases FrameCount(|packet|) - k
  {
    hide Accept, AcceptAll, FrameAt, FrameCount;
    var frames := Plan(packet);
    FrameCountBounds(|packet|);
    PlanPrefixState(packet, capacity, k);
    if k < |frames| {
      AcceptAllSnoc(Fresh(capacity), frames[..k], frames[k]);
      assert frames[..k + 1] == frames[..k] + [frames[k]];
      PlanPrefixState(packet, capacity, k + 1);
      assert frames[k..][1..] == frames[k + 1..] && frames[k..][0] == frames[k];
      PlanNeverWraps(packet, capacity, k + 1);
    }
  }

  /** The device's assembler also ends up with exactly the packet. */
  lemma DeviceRoundTrip(packet: bytes, capacity: nat)
    requires 1 <= |packet| <= MAX_FRAGMENTED_SIZE && |packet| <= capacity && capacity >= MAX_DATA_SIZE
    ensures DeviceTakes(DeviceFresh(capacity), Plan(packet)) == |Plan(packet)|
    ensures var d := DeviceAfter(DeviceFresh(capacity), Plan(packet)); d.finished && !d.error && d.buffer == packet
  {
    hide WrapsIn, HostTakes, HostAfter, DeviceTakes, DeviceAfter, FrameAt;
    var frames := Plan(packet);
    assert frames[..0] == [] && frames[0..] == frames;
    AcceptAllSnoc(Fresh(capacity), [], frames[0]);
    PlanNeverWraps(packet, capacity, 0);
    AgreeRun(Fresh(capacity), DeviceFresh(capacity), frames);
  }

  /** The wrap point is reachable: a FIRST frame declaring one byte, then empty CONSECUTIVE frames. */
  function EmptyRun(n: nat): (r: seq<Frame>)
    requires n <= 255
    ensures |r| == n + 1
  {
    if n == 0 then [FrameOf(First, U32Be(1) + [0])] else EmptyRun(n - 1) + [FrameOf(Consecutive, [n])]
  }

  lemma {:induction false} EmptyRunAccepted(n: nat)
    requires n <= 255
    ensures AcceptAll(Fresh(505), EmptyRun(n)) == Some(Assembly(505, [], n + 1, 1, false))
  {
    hide Accept, AcceptAll;
    if n == 0 {
      AcceptAllSnoc(Fresh(505), [], FrameOf(First, U32Be(1) + [0]));
      assert EmptyRun(0) == [] + [FrameOf(First, U32Be(1) + [0])];
      EmptyRunStart();
    } else {
      EmptyRunAccepted(n - 1);
      AcceptAllSnoc(Fresh(505), EmptyRun(n - 1), FrameOf(Consecutive, [n]));
      EmptyRunStep(n);
    }
  }

  lemma EmptyRunStart()
    ensures Accept(Fresh(505), FrameOf(First, U32Be(1) + [0])) == Ok(Assembly(505, [], 1, 1, false))
  {
    var payload := U32Be(1) + [0];
    assert payload[0..4] == U32Be(1);
    U32RoundTrip(1, payload, 0);
    assert payload[5..] == [];
  }

  lemma EmptyRunStep(n: byte)
    ensures Accept(Assembly(505, [], n, 1, false), FrameOf(Consecutive, [n])) ==
      Ok(Assembly(505, [], n + 1 as nat, 1, false))
  {
    assert [n][1..] == [];
  }

  lemma WrapIsReachable()
    ensures var s := AcceptAll(Fresh(505), EmptyRun(255));
      s.Some? && WrapPoint(s.value, FrameOf(Consecutive, [0, 7]))
  {
    EmptyRunAccepted(255);
  }
}
