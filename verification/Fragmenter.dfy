/** Cutting a packet into frames: the shared plan, and the two stateful fragmenters
    (pc/src/frame/fragmenter.py, device/src/factory_frame.c). */
module Fragmenter {
  import opened Bytes
  import opened Crc
  import opened Frames

  // ---------------------------------------------------------------------------
  // The plan: which frames a packet becomes

  /** Sequence bytes 1 to 255 are usable for CONSECUTIVE frames. */
  const MAX_FRAGMENTED_SIZE: nat := MAX_FIRST_DATA + 255 * MAX_CONSECUTIVE_DATA

  function Min(a: nat, b: nat): nat {
    if a < b then a else b
  }

  /** The offset in the packet at which the `k`-th frame of a fragmented packet starts. */
  function ChunkStart(k: nat): nat {
    if k == 0 then 0 else MAX_FIRST_DATA + MAX_CONSECUTIVE_DATA * (k - 1)
  }

  /** How many frames a packet of `size` bytes becomes. */
  function FrameCount(size: nat): (n: nat)
    requires size > 0
    ensures n > 0
  {
    if size <= MAX_DATA_SIZE then 1
    else 1 + (size - MAX_FIRST_DATA + MAX_CONSECUTIVE_DATA - 1) / MAX_CONSECUTIVE_DATA
  }

  /** The bytes of the packet that the `k`-th frame carries. */
  function Chunk(packet: bytes, k: nat): bytes
    requires |packet| > MAX_DATA_SIZE && k < FrameCount(|packet|)
  {
    FrameCountBounds(|packet|);
    packet[ChunkStart(k)..Min(ChunkStart(k + 1), |packet|)]
  }

  /** The `k`-th frame can be built: its sequence number is a byte and the size fits 32 bits. */
  predicate Buildable(size: nat, k: nat) {
    size <= MAX_DATA_SIZE || (size <= 0xFFFF_FFFF && k <= 255)
  }

  function FrameAt(packet: bytes, k: nat): Frame
    requires packet != [] && k < FrameCount(|packet|) && Buildable(|packet|, k)
  {
    if |packet| <= MAX_DATA_SIZE then FrameOf(Single, packet)
    else if k == 0 then FrameOf(First, U32Be(|packet|) + [0] + Chunk(packet, 0))
    else FrameOf(Consecutive, [k] + Chunk(packet, k))
  }

  /** The whole frame sequence of a packet that can be sent. */
  function Plan(packet: bytes): (r: seq<Frame>)
    requires 1 <= |packet| <= MAX_FRAGMENTED_SIZE
    ensures |r| == FrameCount(|packet|)
  {
    FrameCountBounds(|packet|);
    seq(FrameCount(|packet|), k requires 0 <= k < FrameCount(|packet|) => FrameAt(packet, k))
  }

  lemma FrameCountBounds(size: nat)
    requires size > 0
    ensures size > MAX_DATA_SIZE ==>
      var n := FrameCount(size);
      n >= 2 && ChunkStart(n - 1) < size <= ChunkStart(n)
    ensures FrameCount(size) <= 256 <==> size <= MAX_FRAGMENTED_SIZE
  {
    if size > MAX_DATA_SIZE {
      var q := (size - MAX_FIRST_DATA + MAX_CONSECUTIVE_DATA - 1) / MAX_CONSECUTIVE_DATA;
      assert MAX_CONSECUTIVE_DATA * q >= size - MAX_FIRST_DATA > MAX_CONSECUTIVE_DATA * (q - 1);
    }
  }

  lemma ChunkStartMonotone(j: nat, k: nat)
    requires j < k
    ensures ChunkStart(j) < ChunkStart(k)
  {
  }

  /** The number of frames is exactly the one the frame sizes dictate; a packet of the largest size
      the session layer allows needs at most five. */
  lemma FrameCountExact(size: nat)
    requires size > 0
    ensures size <= MAX_DATA_SIZE ==> FrameCount(size) == 1
    ensures size > MAX_DATA_SIZE ==>
      && MAX_CONSECUTIVE_DATA * (FrameCount(size) - 2) < size - MAX_FIRST_DATA
      && size - MAX_FIRST_DATA <= MAX_CONSECUTIVE_DATA * (FrameCount(size) - 1)
    ensures size <= 2048 ==> FrameCount(size) <= 5
  {
    FrameCountBounds(size);
  }

  /** The packet is exactly the bytes its frames carry, in order. */
  lemma {:induction false} ChunksCover(packet: bytes, k: nat)
    requires |packet| > MAX_DATA_SIZE && k <= FrameCount(|packet|)
    ensures Flatten(seq(k, i requires 0 <= i < k => Chunk(packet, i))) == packet[..Min(ChunkStart(k), |packet|)]
  {
    var chunks := seq(k, i requires 0 <= i < k => Chunk(packet, i));
    FrameCountBounds(|packet|);
    if k > 0 {
      var init := seq(k - 1, i requires 0 <= i < k - 1 => Chunk(packet, i));
      ChunksCover(packet, k - 1);
      assert chunks == init + [Chunk(packet, k - 1)];
      FlattenAppend(init, [Chunk(packet, k - 1)]);
      assert Flatten([Chunk(packet, k - 1)]) == Chunk(packet, k - 1);
      if k > 1 {
        ChunkStartMonotone(k - 1, k);
      }
      ChunkStartBelow(|packet|, k - 1);
    }
  }

  lemma ChunkStartBelow(size: nat, k: nat)
    requires size > MAX_DATA_SIZE && k < FrameCount(size)
    ensures ChunkStart(k) < size
  {
    FrameCountBounds(size);
    if k < FrameCount(size) - 1 {
      ChunkStartMonotone(k, FrameCount(size) - 1);
    }
  }

  /** One step along the plan of a fragmented packet. */
  lemma PlanStep(size: nat, k: nat)
    requires size > MAX_DATA_SIZE && k < FrameCount(size)
    ensures Min(ChunkStart(k), size) == ChunkStart(k) < size
    ensures ChunkStart(0) == 0 && Min(MAX_FIRST_DATA, size) == MAX_FIRST_DATA
    ensures Min(ChunkStart(k) + if k == 0 then MAX_FIRST_DATA else MAX_CONSECUTIVE_DATA, size) ==
      Min(ChunkStart(k + 1), size)
    ensures Min(ChunkStart(k + 1), size) >= size <==> k + 1 == FrameCount(size)
  {
    FrameCountBounds(size);
    ChunkStartBelow(size, k);
    if k + 1 < FrameCount(size) {
      ChunkStartBelow(size, k + 1);
    }
  }

  // ---------------------------------------------------------------------------
  // The host's fragmenter

  lemma SingleOfPlan(packet: bytes)
    requires 1 <= |packet| <= MAX_DATA_SIZE
    ensures FrameCount(|packet|) == 1 && FrameAt(packet, 0) == FrameOf(Single, packet)
  {
  }

  lemma FirstOfPlan(packet: bytes)
    requires |packet| > MAX_DATA_SIZE
    ensures BuildFirst(|packet|, 0, packet[..MAX_FIRST_DATA])
         == if Buildable(|packet|, 0) then Ok(FrameAt(packet, 0)) else Err(ArgumentError)
  {
    FrameCountBounds(|packet|);
  }

  lemma ConsecutiveOfPlan(packet: bytes, k: nat)
    requires |packet| > MAX_DATA_SIZE && 0 < k < FrameCount(|packet|) && Buildable(|packet|, 0)
    ensures ChunkStart(k) < |packet|
    ensures BuildConsecutive(k, packet[ChunkStart(k)..Min(ChunkStart(k) + MAX_CONSECUTIVE_DATA, |packet|)])
         == if Buildable(|packet|, k) then Ok(FrameAt(packet, k)) else Err(ArgumentError)
  {
    ChunkStartBelow(|packet|, k);
  }

  class FrameFragmenter {
    const packet: bytes
    const packetSize: nat
    const needFragmentation: bool
    var index: nat
    var sequence: nat
    var isFinished: bool

    /** How many frames have been handed out. */
    ghost function Emitted(): nat
      reads this
    {
      if needFragmentation then sequence else if isFinished then 1 else 0
    }

    ghost predicate Valid()
      reads this
    {
      && packetSize == |packet| > 0
      && needFragmentation == (packetSize > MAX_DATA_SIZE)
      && Emitted() <= FrameCount(packetSize)
      && isFinished == (Emitted() == FrameCount(packetSize))
      && (needFragmentation && sequence > 0 ==> packetSize <= 0xFFFF_FFFF)
      && index == if needFragmentation then Min(ChunkStart(sequence), packetSize)
                  else if isFinished then packetSize else 0
    }

    /** The constructor proper; `Create` is what a caller sees. */
    constructor (packet: bytes)
      requires packet != []
      ensures Valid() && this.packet == packet && Emitted() == 0
    {
      this.packet := packet;
      this.packetSize := |packet|;
      this.needFragmentation := |packet| > MAX_DATA_SIZE;
      this.index, this.sequence, this.isFinished := 0, 0, false;
    }

    static method Create(packet: bytes) returns (r: Result<FrameFragmenter, FrameError>)
      ensures r.Err? <==> packet == []
      ensures r.Err? ==> r.error == ArgumentError
      ensures r.Ok? ==> fresh(r.value) && r.value.Valid() && r.value.packet == packet && r.value.Emitted() == 0
    {
      if packet == [] {
        return Err(ArgumentError);
      }
      var f := new FrameFragmenter(packet);
      r := Ok(f);
    }

    /** Hands out the next frame of the plan; a frame that cannot be built leaves the state alone. */
    method NextFrame() returns (r: Result<Frame, FrameError>)
      requires Valid()
      modifies this
      ensures Valid()
      ensures var k := old(Emitted());
        if k < FrameCount(|packet|) && Buildable(|packet|, k)
        then r == Ok(FrameAt(packet, k)) && Emitted() == k + 1
        else r == Err(ArgumentError) && Emitted() == k
    {
      hide FrameCount, BuildFirst, BuildConsecutive, FrameAt;
      FrameCountBounds(packetSize);
      if isFinished {
        return Err(ArgumentError);
      }
      // the source checks the offset once more here; an unfinished fragmenter always passes
      if !needFragmentation {
        SingleOfPlan(packet);
        index := packetSize;
        isFinished := true;
        return Ok(FrameOf(Single, packet));
      }
      if sequence == 0 {
        r := NextFirst();
      } else {
        r := NextConsecutive();
      }
    }

    method NextFirst() returns (r: Result<Frame, FrameError>)
      requires Valid() && needFragmentation && sequence == 0
      modifies this
      ensures Valid()
      ensures if Buildable(packetSize, 0)
        then FrameCount(packetSize) > 0 && r == Ok(FrameAt(packet, 0)) && sequence == 1
        else r == Err(ArgumentError) && sequence == 0
    {
      hide FrameCount, BuildFirst, FrameAt;
      FrameCountBounds(packetSize);
      var chunk := packet[..Min(MAX_FIRST_DATA, packetSize)];
      r := BuildFirst(packetSize, 0, chunk);
      FirstOfPlan(packet);
      if r.Ok? {
        index := index + |chunk|;
        sequence := sequence + 1;
      }
    }

    method NextConsecutive() returns (r: Result<Frame, FrameError>)
      requires Valid() && needFragmentation && 0 < sequence < FrameCount(packetSize)
      modifies this
      ensures Valid()
      ensures if Buildable(packetSize, old(sequence))
        then r == Ok(FrameAt(packet, old(sequence))) && sequence == old(sequence) + 1
        else r == Err(ArgumentError) && sequence == old(sequence)
    {
      hide FrameCount, BuildConsecutive, FrameAt, ChunkStart;
      PlanStep(packetSize, sequence);
      ConsecutiveOfPlan(packet, sequence);
      var chunkSize := Min(packetSize - index, MAX_CONSECUTIVE_DATA);
      var chunk := packet[index..index + chunkSize];
      r := BuildConsecutive(sequence, chunk);
      if r.Err? {
        return;
      }
      index := index + |chunk|;
      sequence := sequence + 1;
      if index >= packetSize {
        isFinished := true;
      }
    }
  }

  /** Draining the host's fragmenter hands out the whole plan exactly for the sizes it can number. */
  method DrainHost(packet: bytes) returns (frames: seq<Frame>, complete: bool)
    ensures complete <==> 1 <= |packet| <= MAX_FRAGMENTED_SIZE
    ensures complete ==> frames == Plan(packet)
    ensures 505 < |packet| <= 0xFFFF_FFFF && !complete ==> |frames| == 256
  {
    frames := [];
    var c := FrameFragmenter.Create(packet);
    if c.Err? {
      return [], false;
    }
    var f := c.value;
    FrameCountBounds(|packet|);
    while !f.isFinished
      invariant f.Valid() && fresh(f) && f.packet == packet
      invariant |frames| == f.Emitted()
      invariant forall k :: 0 <= k < |frames| ==> Buildable(|packet|, k) && frames[k] == FrameAt(packet, k)
      decreases FrameCount(|packet|) - f.Emitted()
    {
      var r := f.NextFrame();
      if r.Err? {
        if |frames| > 0 {
          assert Buildable(|packet|, |frames| - 1);
        }
        return frames, false;
      }
      frames := frames + [r.value];
    }
    assert Buildable(|packet|, |frames| - 1);
    complete := true;
    assert frames == Plan(packet);
  }

  // ---------------------------------------------------------------------------
  // The device's fragmenter

  datatype DeviceError =
    | NoError | InvalidArgument | InvalidMagic | CrcMismatch | UnexpectedSequence | BufferOverflow

  /** What one call of the device's fragmenter puts into the frame, from its own fields: the
      sequence counter is a byte, the declared size is truncated to 32 bits. */
  function DeviceFrame(packet: bytes, sequence: byte, index: nat): Frame
    requires packet != [] && index < |packet|
  {
    if |packet| <= MAX_DATA_SIZE then FrameOf(Single, packet)
    else if sequence == 0 then
      FrameOf(First, U32Be(|packet| % 0x1_0000_0000) + [0] + packet[..MAX_FIRST_DATA])
    else
      FrameOf(Consecutive, [sequence] + packet[index..Min(index + MAX_CONSECUTIVE_DATA, |packet|)])
  }

  /** Copies `n` bytes between two buffers. */
  method CopyBytes(dst: array<byte>, at: nat, src: array<byte>, from: nat, n: nat)
    requires dst != src && at + n <= dst.Length && from + n <= src.Length
    modifies dst
    ensures dst[..] == old(dst[..at]) + src[from..from + n] + old(dst[at + n..])
  {
    for j := at to at + n
      invariant forall i :: 0 <= i < dst.Length && !(at <= i < j) ==> dst[i] == old(dst[i])
      invariant forall i :: at <= i < j ==> dst[i] == src[i - at + from]
    {
      dst[j] := src[j - at + from];
    }
  }

  /** Writes the seven header bytes in front of a payload that is already in the buffer. */
  method SealFrame(frame: array<byte>, kind: FrameKind, size: nat)
    requires frame.Length >= MAX_SIZE && size <= MAX_DATA_SIZE
    modifies frame
    ensures frame[..HEADER_SIZE + size] == Encode(FrameOf(kind, old(frame[HEADER_SIZE..HEADER_SIZE + size])))
  {
    hide Crc16;
    ghost var payload := frame[HEADER_SIZE..HEADER_SIZE + size];
    var crc := DeviceCrc16(frame, HEADER_SIZE, size);
    frame[0], frame[1] := MAGIC_HIGH, MAGIC_LOW;
    frame[2] := KindCode(kind);
    frame[3], frame[4] := size / 256, size % 256;
    frame[5], frame[6] := crc / 256, crc % 256;
    assert frame[HEADER_SIZE..HEADER_SIZE + size] == payload;
    assert frame[..HEADER_SIZE] == Header(KindCode(kind), payload) by {
      assert U16Be(MAGIC) == [MAGIC_HIGH, MAGIC_LOW];
    }
    assert frame[..HEADER_SIZE + size] == frame[..HEADER_SIZE] + frame[HEADER_SIZE..HEADER_SIZE + size];
  }

  class DeviceFragmenter {
    const packet: array<byte>
    var hasFinished: bool
    var hasError: bool
    var needFragmentation: bool
    var sequence: byte
    var index: nat
    var packetSize: nat

    ghost predicate Valid()
      reads this
    {
      && packetSize <= packet.Length
      && needFragmentation == (packetSize > MAX_DATA_SIZE)
    }

    ghost function Packet(): bytes
      requires Valid()
      reads this, packet
    {
      packet[..packetSize]
    }

    constructor (packet: array<byte>)
      ensures Valid() && this.packet == packet && packetSize == 0
    {
      this.packet := packet;
      hasFinished, hasError, needFragmentation := false, false, false;
      sequence, index, packetSize := 0, 0, 0;
    }

    /** `factory_frame_fragmenter_init`. */
    method Init(size: nat) returns (e: DeviceError)
      requires Valid()
      modifies this
      ensures Valid()
      ensures e == if size == 0 then InvalidArgument else if size > packet.Length then BufferOverflow else NoError
      ensures e == NoError ==> packetSize == size && sequence == 0 && index == 0 && !hasFinished && !hasError
      ensures e != NoError ==> unchanged(this)
    {
      if size == 0 {
        return InvalidArgument;
      }
      if size > packet.Length {
        return BufferOverflow;
      }
      hasFinished, hasError := false, false;
      needFragmentation := size > MAX_DATA_SIZE;
      sequence, index, packetSize := 0, 0, size;
      e := NoError;
    }

    /** `factory_frame_fragmenter_process`: writes one complete frame into the caller's storage. */
    method Process(frame: array<byte>) returns (e: DeviceError)
      requires Valid() && frame.Length >= MAX_SIZE && frame != packet
      modifies this, frame
      ensures Valid() && packetSize == old(packetSize) && needFragmentation == old(needFragmentation)
      ensures old(hasFinished || hasError) ==> e == InvalidArgument && unchanged(this) && unchanged(frame)
      ensures !old(hasFinished || hasError) && old(index) >= packetSize ==>
        e == InvalidArgument && hasError && hasFinished && unchanged(frame)
      ensures !old(hasFinished || hasError) && old(index) < packetSize ==>
        && e == NoError && !hasError
        && var f := DeviceFrame(old(Packet()), old(sequence), old(index));
           frame[..HEADER_SIZE + |f.payload|] == Encode(f)
      ensures !old(hasFinished || hasError) && old(index) < packetSize && !needFragmentation ==>
        index == packetSize && hasFinished && sequence == old(sequence)
      ensures !old(hasFinished || hasError) && old(index) < packetSize && needFragmentation ==>
        && sequence == (old(sequence) + 1) % 256
        && index == (if old(sequence) == 0 then old(index) + Min(MAX_FIRST_DATA, packetSize)
                     else Min(old(index) + MAX_CONSECUTIVE_DATA, packetSize))
        && hasFinished == (old(sequence) != 0 && index >= packetSize)
    {
      hide Encode, Crc16, U32Be;
      if hasFinished || hasError {
        return InvalidArgument;
      }
      if index >= packetSize {
        hasError, hasFinished := true, true;
        return InvalidArgument;
      }
      if !needFragmentation {
        CopyBytes(frame, HEADER_SIZE, packet, 0, packetSize);
        assert frame[HEADER_SIZE..HEADER_SIZE + packetSize] == Packet();
        SealFrame(frame, Single, packetSize);
        index, hasFinished := packetSize, true;
        return NoError;
      }
      if sequence == 0 {
        var chunkSize := if packetSize > MAX_FIRST_DATA then MAX_FIRST_DATA else packetSize;
        WriteFirst(frame, chunkSize);
        SealFrame(frame, First, FIRST_METADATA_SIZE + chunkSize);
        index, sequence := index + chunkSize, 1;
        return NoError;
      }
      var remaining := packetSize - index;
      var chunkSize := if remaining > MAX_CONSECUTIVE_DATA then MAX_CONSECUTIVE_DATA else remaining;
      WriteConsecutive(frame, chunkSize);
      SealFrame(frame, Consecutive, CONSECUTIVE_METADATA_SIZE + chunkSize);
      index, sequence := index + chunkSize, if sequence == 255 then 0 else sequence + 1;
      if index >= packetSize {
        hasFinished := true;
      }
      e := NoError;
    }

    /** The fields after `k` calls, as long as the frames can be numbered. */
    ghost predicate OnPlan(whole: bytes, k: nat)
      reads this, packet
    {
      && Valid() && packetSize > 0 && Packet() == whole && packetSize <= 0xFFFF_FFFF && k <= 256
      && !hasError && k <= FrameCount(packetSize) && hasFinished == (k == FrameCount(packetSize))
      && (needFragmentation ==> sequence == k % 256 && index == Min(ChunkStart(k), packetSize))
      && (!needFragmentation ==> sequence == 0 && (k == 0 ==> index == 0))
    }

    /** One call on the plan writes the planned frame and stays on the plan. */
    method ProcessOnPlan(frame: array<byte>, ghost whole: bytes, ghost k: nat)
      requires OnPlan(whole, k) && k < FrameCount(packetSize) && k <= 255
      requires frame.Length >= MAX_SIZE && frame != packet
      modifies this, frame
      ensures packetSize == old(packetSize) && OnPlan(whole, k + 1)
      ensures Buildable(|whole|, k)
      ensures var f := FrameAt(whole, k); frame[..HEADER_SIZE + |f.payload|] == Encode(f)
    {
      hide Encode, FrameCount, FrameAt, DeviceFrame, ChunkStart, Min;
      FrameCountBounds(packetSize);
      DeviceFollowsPlan(whole, k);
      if packetSize <= MAX_DATA_SIZE {
        SingleOfPlan(whole);
      } else {
        PlanStep(packetSize, k);
      }
      var e := Process(frame);
    }

    /** The payload of a FIRST frame: total size, sequence 0, first chunk. */
    method WriteFirst(frame: array<byte>, chunkSize: nat)
      requires Valid() && frame.Length >= MAX_SIZE && frame != packet
      requires chunkSize <= packetSize && chunkSize <= MAX_FIRST_DATA
      modifies frame
      ensures frame[HEADER_SIZE..HEADER_SIZE + FIRST_METADATA_SIZE + chunkSize]
           == U32Be(packetSize % 0x1_0000_0000) + [0] + Packet()[..chunkSize]
    {
      var total: u32 := packetSize % 0x1_0000_0000;
      CopyBytes(frame, HEADER_SIZE + FIRST_METADATA_SIZE, packet, 0, chunkSize);
      ghost var at := HEADER_SIZE + FIRST_METADATA_SIZE;
      assert frame[at..at + chunkSize] == Packet()[..chunkSize];
      frame[7], frame[8], frame[9], frame[10] :=
        total / 0x100_0000, total / 0x1_0000 % 256, total / 0x100 % 256, total % 256;
      frame[11] := 0;
      assert frame[HEADER_SIZE..at] == U32Be(total) + [0];
      assert frame[at..at + chunkSize] == Packet()[..chunkSize];
      assert frame[HEADER_SIZE..at + chunkSize] == frame[HEADER_SIZE..at] + frame[at..at + chunkSize];
    }

    /** The payload of a CONSECUTIVE frame: sequence byte and chunk. */
    method WriteConsecutive(frame: array<byte>, chunkSize: nat)
      requires Valid() && frame.Length >= MAX_SIZE && frame != packet
      requires index + chunkSize <= packetSize && chunkSize <= MAX_CONSECUTIVE_DATA
      modifies frame
      ensures frame[HEADER_SIZE..HEADER_SIZE + CONSECUTIVE_METADATA_SIZE + chunkSize]
           == [sequence] + Packet()[index..index + chunkSize]
    {
      CopyBytes(frame, HEADER_SIZE + 1, packet, index, chunkSize);
      ghost var at := HEADER_SIZE + 1;
      assert frame[at..at + chunkSize] == Packet()[index..index + chunkSize];
      frame[HEADER_SIZE] := sequence;
      assert frame[at..at + chunkSize] == Packet()[index..index + chunkSize];
    }
  }

  /** As long as the sequence byte has not wrapped, the device writes the same frames as the host. */
  lemma DeviceFollowsPlan(packet: bytes, k: nat)
    requires 1 <= |packet| <= 0xFFFF_FFFF && k < FrameCount(|packet|) && k <= 255
    ensures var index := if |packet| <= MAX_DATA_SIZE then 0 else ChunkStart(k);
      index < |packet| && DeviceFrame(packet, k, index) == FrameAt(packet, k)
  {
    FrameCountBounds(|packet|);
    if |packet| > MAX_DATA_SIZE {
      ChunkStartBelow(|packet|, k);
    }
  }

  /** Past the sizes it can number, 257 calls: the first 256 frames are the planned ones, and the next one
      is the FIRST frame again, because the device's counter is back at 0, where the host refuses to go on. */
  method DrainPastWrap(buffer: array<byte>, size: nat, frame: array<byte>) returns (wire: seq<bytes>)
    requires MAX_FRAGMENTED_SIZE < size <= buffer.Length && size <= 0xFFFF_FFFF
    requires frame.Length >= MAX_SIZE && frame != buffer
    modifies frame
    ensures |wire| == 257 && FrameCount(size) >= 257
    ensures forall k :: 0 <= k <= 255 ==> wire[k] == Encode(FrameAt(buffer[..size], k))
    ensures wire[256] == wire[0]
  {
    hide Encode, FrameCount, FrameAt, U16At, DeviceFrame;
    var f := new DeviceFragmenter(buffer);
    var e := f.Init(size);
    wire := [];
    ghost var packet := buffer[..size];
    FrameCountBounds(size);
    while |wire| < 256
      invariant fresh(f) && f.packet == buffer && f.packetSize == size && |wire| <= 256 && f.OnPlan(packet, |wire|)
      invariant forall k :: 0 <= k < |wire| ==> wire[k] == Encode(FrameAt(packet, k))
    {
      f.ProcessOnPlan(frame, packet, |wire|);
      SizeField(frame[..], FrameAt(packet, |wire|));
      wire := wire + [frame[..HEADER_SIZE + U16At(frame[..], 3)]];
    }
    WrapsToFirst(packet);
    e := f.Process(frame);
    SizeField(frame[..], FrameAt(packet, 0));
    wire := wire + [frame[..HEADER_SIZE + U16At(frame[..], 3)]];
  }

  lemma WrapsToFirst(packet: bytes)
    requires MAX_FRAGMENTED_SIZE < |packet| <= 0xFFFF_FFFF
    ensures Min(ChunkStart(256), |packet|) == ChunkStart(256) < |packet|
    ensures FrameCount(|packet|) > 256 && Buildable(|packet|, 0)
    ensures DeviceFrame(packet, 0, ChunkStart(256)) == FrameAt(packet, 0)
  {
    FrameCountBounds(|packet|);
    DeviceFollowsPlan(packet, 0);
  }

  /** Draining the device's fragmenter, frame by frame through the caller's storage. */
  method DrainDevice(buffer: array<byte>, size: nat, frame: array<byte>) returns (wire: seq<bytes>)
    requires 1 <= size <= buffer.Length && size <= MAX_FRAGMENTED_SIZE
    requires frame.Length >= MAX_SIZE && frame != buffer
    modifies frame
    ensures |wire| == FrameCount(size)
    ensures forall k :: 0 <= k < |wire| ==> wire[k] == Encode(Plan(buffer[..size])[k])
  {
    hide Encode, FrameCount, FrameAt, U16At;
    var f := new DeviceFragmenter(buffer);
    var e := f.Init(size);
    wire := [];
    ghost var packet := buffer[..size];
    FrameCountBounds(size);
    while !f.hasFinished && !f.hasError
      invariant fresh(f) && f.packet == buffer && f.OnPlan(packet, |wire|)
      invariant forall k :: 0 <= k < |wire| ==> wire[k] == Encode(FrameAt(packet, k))
      decreases FrameCount(size) - |wire|
    {
      f.ProcessOnPlan(frame, packet, |wire|);
      SizeField(frame[..], FrameAt(packet, |wire|));
      wire := wire + [frame[..HEADER_SIZE + U16At(frame[..], 3)]];
    }
  }

  /** The size field of a stored frame says how many of the stored bytes belong to it. */
  lemma SizeField(storage: bytes, f: Frame)
    requires |storage| >= HEADER_SIZE + |f.payload|
    requires storage[..HEADER_SIZE + |f.payload|] == Encode(f)
    ensures U16At(storage, 3) == |f.payload|
  {
    var raw := storage[..HEADER_SIZE + |f.payload|];
    HeaderFields(KindCode(f.kind), f.payload, raw);
    assert raw[..HEADER_SIZE] == Header(KindCode(f.kind), f.payload);
    assert U16At(raw, 3) == U16At(storage, 3);
  }
}
