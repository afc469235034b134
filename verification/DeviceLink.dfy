/** The device's stop-and-wait link as it is written (device/src/factory_session.c, from `read_frame` to
    `receive_one_packet`): one static `frame` is the buffer a frame is sent from, the buffer in which the
    answer is looked for, and the buffer acknowledgements are built in. */
module DeviceLink {
  import opened Bytes
  import opened Crc
  import opened Frames
  import opened Fragmenter
  import opened Assembler
  import opened Reader
  import opened DeviceUart
  import opened DeviceControl
  import Link
  import DeviceReactions

  const RETRY_COUNT: nat := 3

  // ---------------------------------------------------------------------------
  // What the buffer holds, and what goes out from it

  /** What `write_frame` puts on the wire: the stored frame, or nothing if its size field is too large. */
  function Outgoing(storage: bytes): bytes
    requires |storage| == MAX_SIZE
  {
    if U16At(storage, 3) > MAX_DATA_SIZE then [] else storage[..HEADER_SIZE + U16At(storage, 3)]
  }

  predicate Sendable(storage: bytes)
    requires |storage| == MAX_SIZE
  {
    U16At(storage, 3) <= MAX_DATA_SIZE
  }

  /** `part` is the frame's wire form cut off somewhere, with nothing but zeros behind the cut. */
  predicate Cut(part: bytes, whole: bytes) {
    part <= whole && forall k :: |part| <= k < |whole| ==> whole[k] == 0
  }

  /** What any read can have left in the storage is the wire form of `f` exactly if it is cut from it. */
  lemma StoredExact(h: Heard, f: Frame)
    requires WellHeard(h)
    ensures (Sendable(Fill(h.part)) && Outgoing(Fill(h.part)) == Encode(f)) <==> Cut(h.part, Encode(f))
  {
    hide Encode, U16At, Quiet, FirstMagic;
    var storage, whole := Fill(h.part), Encode(f);
    EncodeStarts(f);
    if Cut(h.part, whole) {
      assert h.part != [];
      assert storage[..|whole|] == whole;
      SizeField(storage, f);
    }
    if Sendable(storage) && Outgoing(storage) == whole {
      SizeField(storage, f);
      BlankIsNoFrame(f);
      assert whole == storage[..|whole|];
      if |h.part| > HEADER_SIZE {
        SizeInStorage(h.part, storage);
      }
      assert h.part == storage[..|h.part|];
    }
  }

  lemma BlankIsNoFrame(f: Frame)
    ensures Outgoing(Fill([])) != Encode(f)
  {
    hide Crc16;
    assert Encode(f)[2] != 0;
    assert Fill([])[2] == 0;
  }

  // ---------------------------------------------------------------------------
  // Waiting for the answer

  /** Everything a sequence of reads took off the line. */
  function Consumed(heard: seq<Heard>): bytes {
    if heard == [] then [] else Consumed(heard[..|heard| - 1]) + (heard[|heard| - 1].noise + heard[|heard| - 1].part)
  }

  ghost predicate AllHeard(heard: seq<Heard>) {
    forall i :: 0 <= i < |heard| ==> WellHeard(heard[i])
  }

  /** What the sender makes of one read. A read that failed tells nothing. */
  function Verdict(h: Heard, sequence: byte): Link.Answer
  {
    if h.complete then DeviceJudge(Fill(h.part), sequence) else Link.Malformed
  }

  /** All reads before the last were whole frames that do not concern `sequence`. */
  ghost predicate Unrelated(heard: seq<Heard>, sequence: byte) {
    AllHeard(heard)
    && forall i :: 0 <= i < |heard| ==> heard[i].complete && Verdict(heard[i], sequence) == Link.Unrelated
  }

  /** The return code of a wait that has read `heard`. */
  function WaitCode(heard: seq<Heard>, sequence: byte): int
  {
    if heard == [] then -5
    else
      var last := heard[|heard| - 1];
      if !last.complete then -3
      else match Verdict(last, sequence)
        case Unrelated => -5
        case Malformed => -4
        case _ => 0
  }

  /** A whole frame that is no answer is kept for the next receive, unless one is kept already. */
  function KeptOne(pending: Option<bytes>, h: Heard): Option<bytes>
  {
    if pending.None? && h.complete && DeviceKeeps(Fill(h.part)) then Some(h.part) else pending
  }

  function KeptRaw(pending: Option<bytes>, heard: seq<Heard>): Option<bytes>
  {
    if heard == [] then pending
    else KeptOne(KeptRaw(pending, heard[..|heard| - 1]), heard[|heard| - 1])
  }

  /** The frame buffer after these reads. */
  function Left(start: bytes, heard: seq<Heard>): bytes
  {
    if heard == [] then start else Fill(heard[|heard| - 1].part)
  }

  lemma ConsumedMore(heard: seq<Heard>, h: Heard, all: bytes, before: bytes, left: bytes)
    requires all == Consumed(heard) + before && before == h.noise + h.part + left
    ensures all == Consumed(heard + [h]) + left
  {
    assert (heard + [h])[..|heard|] == heard;
  }

  lemma KeptMore(pending: Option<bytes>, heard: seq<Heard>, h: Heard)
    ensures KeptRaw(pending, heard + [h]) == KeptOne(KeptRaw(pending, heard), h)
  {
    assert (heard + [h])[..|heard|] == heard;
  }

  /** What is kept is the first whole frame that is no answer, unless one is kept already. */
  lemma {:induction false} KeptRawExact(pending: Option<bytes>, heard: seq<Heard>, k: nat)
    requires k <= |heard|
    requires forall i :: 0 <= i < k ==> !(heard[i].complete && DeviceKeeps(Fill(heard[i].part)))
    ensures pending.Some? ==> KeptRaw(pending, heard) == pending
    ensures pending.None? && k == |heard| ==> KeptRaw(pending, heard) == None
    ensures pending.None? && k < |heard| && heard[k].complete && DeviceKeeps(Fill(heard[k].part)) ==>
      KeptRaw(pending, heard) == Some(heard[k].part)
    decreases |heard|
  {
    hide DeviceKeeps, Fill;
    if heard != [] {
      var n := |heard| - 1;
      KeptRawExact(pending, heard[..n], if k <= n then k else n);
    }
  }

  lemma WholeOutgoing(part: bytes)
    requires WholeFrame(part)
    ensures |part| <= MAX_SIZE && Sendable(Fill(part)) && Outgoing(Fill(part)) == part
  {
    SizeInStorage(part, Fill(part));
  }

  /** What the outside still holds: the bytes to come, how the turns of the UART will go, and whether the time
      for an answer will still be running, turn by turn. */
  datatype World = World(line: bytes, readTurns: seq<Turn>, writeTurns: seq<Turn>, windows: seq<bool>)

  /** One read, from one state of the world to the next. If it failed, it has its cause. */
  ghost predicate ReadOne(h: Heard, e: World, f: World) {
    && WellHeard(h) && e.line == h.noise + h.part + f.line
    && f.writeTurns == e.writeTurns && f.windows == e.windows
    && Rest(f.readTurns, e.readTurns) && Steady(e.readTurns, e.line, f.readTurns, f.line)
    && (!h.complete ==> TooLarge(h.part) || GaveUp(e.readTurns, f.readTurns, f.line == []))
  }

  /** A wait that read `heard`, one read per turn in which time was left. All reads but the last concern
      another frame; the last one failed for a cause, or ended the wait, or time was up after it. */
  ghost predicate Waited(heard: seq<Heard>, e: World, f: World, sequence: byte) {
    && AllHeard(heard) && e.line == Consumed(heard) + f.line && f.writeTurns == e.writeTurns
    && Rest(f.readTurns, e.readTurns) && Steady(e.readTurns, e.line, f.readTurns, f.line)
    && |heard| <= |e.windows| && f.windows == e.windows[|heard|..] && (forall i :: 0 <= i < |heard| ==> e.windows[i])
    && (heard != [] ==> Unrelated(heard[..|heard| - 1], sequence))
    && (heard != [] && !heard[|heard| - 1].complete ==>
          TooLarge(heard[|heard| - 1].part) || GaveUp(e.readTurns, f.readTurns, f.line == []))
    && (WaitCode(heard, sequence) == -5 ==> f.windows == [] || !f.windows[0])
  }

  // ---------------------------------------------------------------------------
  // The retry loop

  /** One turn of the retry loop: what went out, whether all of it did, what the wait read, and the world
      before and after. */
  datatype Attempt = Attempt(wrote: bytes, ok: bool, heard: seq<Heard>, before: World, after: World)

  /** The frame buffer after these attempts. */
  function BufferAfter(start: bytes, attempts: seq<Attempt>): bytes {
    if attempts == [] then start
    else Left(BufferAfter(start, attempts[..|attempts| - 1]), attempts[|attempts| - 1].heard)
  }

  /** An attempt from a buffer: it writes what the buffer holds, all of it or a beginning, and waits only in
      the first case. A write that failed has its cause: a size field no frame can have, or the UART. */
  ghost predicate Attempted(storage: bytes, a: Attempt, sequence: byte) {
    && |storage| == MAX_SIZE
    && a.wrote <= Outgoing(storage) && (a.ok <==> Sendable(storage) && a.wrote == Outgoing(storage))
    && Rest(a.after.writeTurns, a.before.writeTurns)
    && Spent(a.before.writeTurns, a.after.writeTurns, |a.wrote|)
    && var written := a.before.(writeTurns := a.after.writeTurns);
       if a.ok then Waited(a.heard, written, a.after, sequence)
       else
         && a.heard == [] && a.after == written
         && (Sendable(storage) ==> GaveUp(a.before.writeTurns, a.after.writeTurns, false))
  }

  /** The attempts lead from one state of the world to another. */
  predicate Chained(attempts: seq<Attempt>, e: World, f: World) {
    if attempts == [] then e == f
    else
      var last := attempts[|attempts| - 1];
      last.after == f && Chained(attempts[..|attempts| - 1], e, last.before)
  }

  predicate Succeeded(a: Attempt, sequence: byte) {
    a.ok && a.heard != [] && Verdict(a.heard[|a.heard| - 1], sequence) == Link.Acknowledged
  }

  ghost predicate AllAttempted(start: bytes, attempts: seq<Attempt>, sequence: byte) {
    forall i :: 0 <= i < |attempts| ==> Attempted(BufferAfter(start, attempts[..i]), attempts[i], sequence)
  }

  function Wrote(attempts: seq<Attempt>): bytes {
    if attempts == [] then [] else Wrote(attempts[..|attempts| - 1]) + attempts[|attempts| - 1].wrote
  }

  function AllConsumed(attempts: seq<Attempt>): bytes {
    if attempts == [] then [] else AllConsumed(attempts[..|attempts| - 1]) + Consumed(attempts[|attempts| - 1].heard)
  }

  lemma {:induction false} OneMoreAttempt(start: bytes, attempts: seq<Attempt>, a: Attempt, sequence: byte)
    requires AllAttempted(start, attempts, sequence) && Attempted(BufferAfter(start, attempts), a, sequence)
    ensures AllAttempted(start, attempts + [a], sequence)
    ensures BufferAfter(start, attempts + [a]) == Left(BufferAfter(start, attempts), a.heard)
    ensures Wrote(attempts + [a]) == Wrote(attempts) + a.wrote
    ensures AllConsumed(attempts + [a]) == AllConsumed(attempts) + Consumed(a.heard)
    ensures forall e :: Chained(attempts, e, a.before) ==> Chained(attempts + [a], e, a.after)
  {
    hide Attempted, Left, Consumed;
    var all := attempts + [a];
    assert all[..|attempts|] == attempts;
    forall i | 0 <= i < |all| ensures Attempted(BufferAfter(start, all[..i]), all[i], sequence) {
      assert i < |attempts| ==> all[..i] == attempts[..i];
    }
  }

  /** The last thing read before this point, if anything was. */
  function LastHeard(attempts: seq<Attempt>): Option<Heard> {
    if attempts == [] then None
    else
      var last := attempts[|attempts| - 1].heard;
      if last != [] then Some(last[|last| - 1]) else LastHeard(attempts[..|attempts| - 1])
  }

  lemma {:induction false} PrefixAttempted(start: bytes, attempts: seq<Attempt>, sequence: byte, n: nat)
    requires AllAttempted(start, attempts, sequence) && n <= |attempts|
    ensures AllAttempted(start, attempts[..n], sequence)
  {
    hide Attempted, BufferAfter;
    forall i | 0 <= i < n ensures Attempted(BufferAfter(start, attempts[..n][..i]), attempts[..n][i], sequence) {
      assert attempts[..n][..i] == attempts[..i];
    }
  }

  lemma {:induction false} BufferIsLastHeard(start: bytes, attempts: seq<Attempt>, sequence: byte)
    requires AllAttempted(start, attempts, sequence)
    ensures var last := LastHeard(attempts);
      BufferAfter(start, attempts) == (if last.None? then start else Fill(last.value.part))
      && (last.Some? ==> WellHeard(last.value))
    decreases |attempts|
  {
    hide WellHeard, Fill, AllAttempted, Unrelated, Outgoing, Sendable;
    if attempts != [] {
      var n := |attempts| - 1;
      PrefixAttempted(start, attempts, sequence, n);
      LastAttempted(start, attempts, sequence);
      BufferIsLastHeard(start, attempts[..n], sequence);
    }
  }

  lemma LastAttempted(start: bytes, attempts: seq<Attempt>, sequence: byte)
    requires AllAttempted(start, attempts, sequence) && attempts != []
    ensures AllHeard(attempts[|attempts| - 1].heard)
  {
    hide BufferAfter, WellHeard, Unrelated, Outgoing, Sendable, GaveUp, Steady, Rest;
    var n := |attempts| - 1;
    assert Attempted(BufferAfter(start, attempts[..n]), attempts[n], sequence);
  }

  /** When a retry sends the frame: of all the attempts made from a buffer that held the frame, one whose
      write goes through puts the frame on the wire if and only if nothing was read before it, or the last
      thing read was that very frame, whole or cut off before nothing but zeros. */
  lemma {:induction false} RetryExact(start: bytes, f: Frame, attempts: seq<Attempt>, sequence: byte, i: nat)
    requires |start| == MAX_SIZE && start[..HEADER_SIZE + |f.payload|] == Encode(f)
    requires AllAttempted(start, attempts, sequence) && i < |attempts| && attempts[i].ok
    ensures attempts[i].wrote == Encode(f) <==>
      var last := LastHeard(attempts[..i]); last.None? || Cut(last.value.part, Encode(f))
  {
    hide Encode, U16At, Fill, WellHeard, Unrelated, Waited, GaveUp, Steady, Rest, Spent;
    var before := attempts[..i];
    assert Attempted(BufferAfter(start, attempts[..i]), attempts[i], sequence);
    PrefixAttempted(start, attempts, sequence, i);
    BufferIsLastHeard(start, before, sequence);
    SizeField(start, f);
    if LastHeard(before).Some? {
      StoredExact(LastHeard(before).value, f);
    }
  }

  /** What a retry is to whoever reads it: a frame if and only if the last thing read was that frame, whole
      or cut off before nothing but zeros. */
  lemma RetryDecodes(h: Heard, f: Frame)
    requires WellHeard(h)
    ensures Decode(Outgoing(Fill(h.part))) == Ok(f) <==> Cut(h.part, Encode(f))
  {
    hide Encode, Decode, WellHeard, Cut, U16At, Fill;
    StoredExact(h, f);
    DecodeEncode(f);
    NothingDecodes();
    if Decode(Outgoing(Fill(h.part))) == Ok(f) {
      EncodeDecode(Outgoing(Fill(h.part)));
    }
  }

  lemma NothingDecodes()
    ensures Decode([]).Err?
  {
  }

  /** Three ways it goes. After silence the retry is no frame. After an answer, refusing or not, it is that
      answer, which every receiver ignores. After a data frame that was cut off before zeros it is the
      peer's own data frame, and a receiver takes it for one. */
  lemma RetryOutcomes(h: Heard, s: Assembly)
    requires WellHeard(h)
    ensures h.part == [] ==> Decode(Outgoing(Fill(h.part))).Err?
    ensures h.complete && Decode(h.part).Ok? && IsControl(Decode(h.part).value) ==>
      && Decode(Outgoing(Fill(h.part))) == Decode(h.part)
      && Link.React(s, Decode(h.part).value) == Link.Reaction(None, s, None)
    ensures forall f: Frame ::
      Cut(h.part, Encode(f)) && !IsControl(f) && Accept(s, f).Ok? && !Link.IsDuplicate(s, f) ==>
      && Decode(Outgoing(Fill(h.part))) == Ok(f) && Link.React(s, f).next == Accept(s, f).value
  {
    hide Encode, Decode, Cut, Fill, Accept, Quiet, FirstMagic;
    if h.part == [] {
      BlankDecodes();
    }
    if h.complete {
      WholeOutgoing(h.part);
    }
    forall f: Frame | Cut(h.part, Encode(f)) && !IsControl(f) && Accept(s, f).Ok? && !Link.IsDuplicate(s, f)
      ensures Decode(Outgoing(Fill(h.part))) == Ok(f) && Link.React(s, f).next == Accept(s, f).value
    {
      RetryDecodes(h, f);
      AcceptedHasSequence(s, f);
    }
  }

  /** The last of these does happen: any frame whose payload ends in zeros can be cut off there. */
  lemma CutBeforeZeros(f: Frame, part: bytes, n: nat)
    requires 0 < n <= |f.payload| && Encode(f) == part + ZeroBytes(n)
    ensures |part| <= MAX_SIZE && WellHeard(HeardOf([], part, false)) && Cut(part, Encode(f))
  {
    hide Encode, U16At;
    EncodeStarts(f);
    assert [] + part == part;
    assert MagicAt(part, 0);
    assert part == part[..HEADER_SIZE] + part[HEADER_SIZE..];
    assert Encode(f) == part[..HEADER_SIZE] + Encode(f)[HEADER_SIZE..];
    SizeStays(part[..HEADER_SIZE], part[HEADER_SIZE..]);
    SizeStays(part[..HEADER_SIZE], Encode(f)[HEADER_SIZE..]);
  }

  lemma BlankDecodes()
    ensures Decode(Outgoing(Fill([]))).Err?
  {
    hide Crc16;
    assert Fill([])[2] == 0;
  }

  lemma AcceptedHasSequence(s: Assembly, f: Frame)
    requires Accept(s, f).Ok?
    ensures Sequence(f).Ok?
  {
  }

  class DeviceLink {
    const uart: Uart
    const frame: array<byte>
    const pendingFrame: array<byte>
    var hasPending: bool
    var windows: seq<bool>

    /** `windows` says, turn by turn, whether the time for an answer is still running. */
    constructor (uart: Uart, windows: seq<bool>)
      ensures Valid() && this.uart == uart && this.windows == windows && !hasPending
      ensures fresh(frame) && fresh(pendingFrame)
    {
      this.uart, this.windows, hasPending := uart, windows, false;
      frame, pendingFrame := new byte[MAX_SIZE](_ => 0), new byte[MAX_SIZE](_ => 0);
    }

    ghost predicate Valid()
      reads this, frame, pendingFrame
    {
      && frame.Length == MAX_SIZE && pendingFrame.Length == MAX_SIZE && frame != pendingFrame
      && (hasPending ==> Sendable(pendingFrame[..]) && WholeFrame(Outgoing(pendingFrame[..])))
    }

    ghost function Outside(): World
      reads this, uart
    {
      World(uart.inbound, uart.readTurns, uart.writeTurns, windows)
    }

    /** The stored frame that waits for the next receive. */
    function Pending(): Option<bytes>
      requires Valid()
      reads this, frame, pendingFrame
    {
      if hasPending then Some(Outgoing(pendingFrame[..])) else None
    }

    /** `factory_frame_init`. */
    method InitFrame()
      requires Valid()
      modifies frame
      ensures Valid() && frame[..] == Fill([])
    {
      for i := 0 to frame.Length
        invariant forall j :: 0 <= j < i ==> frame[j] == 0
      {
        frame[i] := 0;
      }
      frame[0], frame[1] := MAGIC_HIGH, MAGIC_LOW;
    }

    /** Keeps a copy of a whole frame. */
    method KeepFrame(ghost part: bytes)
      requires Valid() && WholeFrame(part) && frame[..] == Fill(part)
      modifies this`hasPending, pendingFrame
      ensures Valid() && Pending() == Some(part)
    {
      hide U16At, Fill, Outgoing, WholeFrame, Sendable;
      WholeOutgoing(part);
      WholeSize(part);
      CopyBytes(pendingFrame, 0, frame, 0, HEADER_SIZE + U16At(frame[..], 3));
      HeldPart(part, frame[..]);
      assert pendingFrame[..][..|part|] == part;
      CopiedFrame(pendingFrame[..], part);
      hasPending := true;
    }

    /** One turn of the wait: one read, and what it means. */
    method HearOnce(sequence: byte) returns (answer: Link.Answer, loaded: bool, isAck: bool, ghost h: Heard)
      requires Valid()
      modifies this`hasPending, uart, frame, pendingFrame
      ensures Valid() && uart.wire == old(uart.wire) && ReadOne(h, old(Outside()), Outside())
      ensures frame[..] == Fill(h.part) && loaded == h.complete && answer == Verdict(h, sequence)
      ensures loaded && answer != Link.Unrelated && answer != Link.Malformed ==> isAck == (answer == Link.Acknowledged)
      ensures Pending() == KeptOne(old(Pending()), h)
    {
      hide U16At, Fill, Outgoing, Sendable, Encode, Decode, Quiet, FirstMagic, WholeFrame, ControlOf;
      hide Steady, Rest, GaveUp, Prompt, TooLarge;
      InitFrame();
      var code;
      code, h := uart.ReadFrame(frame);
      if code != 0 {
        return Link.Malformed, false, false, h;
      }
      var e, acked, q := ControlDecode(frame);
      loaded, isAck := true, acked;
      if e == InvalidArgument {
        if !hasPending {
          KeepFrame(h.part);
        }
        answer := Link.Unrelated;
      } else if e != NoError {
        answer := Link.Malformed;
      } else if q != sequence {
        answer := Link.Unrelated;
      } else {
        answer := if isAck then Link.Acknowledged else Link.Refused;
      }
    }

    /** `wait_flow_control`. `heard` is what its reads took off the line. What it returns, what it keeps
        and what it leaves in the frame buffer follow from that. */
    method WaitFlowControl(sequence: byte) returns (code: int, isAck: bool, ghost heard: seq<Heard>)
      requires Valid()
      modifies this, uart, frame, pendingFrame
      ensures Valid() && uart.wire == old(uart.wire) && Waited(heard, old(Outside()), Outside(), sequence)
      ensures code == WaitCode(heard, sequence)
      ensures code == 0 ==> isAck == (Verdict(heard[|heard| - 1], sequence) == Link.Acknowledged)
      ensures frame[..] == Left(old(frame[..]), heard)
      ensures Pending() == KeptRaw(old(Pending()), heard)
    {
      hide Verdict, KeptOne, Fill, Outgoing, Sendable, WaitSoFar, ReadOne, Waited, WaitCode;
      heard, isAck := [], false;
      ghost var e := Outside();
      NothingWaited(e, sequence);
      while true
        invariant Valid() && uart.wire == old(uart.wire)
        invariant WaitSoFar(heard, e, Outside(), sequence)
        invariant frame[..] == Left(old(frame[..]), heard)
        invariant Pending() == KeptRaw(old(Pending()), heard)
        decreases |windows|
      {
        if windows == [] || !windows[0] {
          WaitTimeUp(heard, e, Outside(), sequence);
          return -5, isAck, heard;
        }
        ghost var t, before := Outside(), heard;
        windows := windows[1..];
        var answer, loaded, acked, h := HearOnce(sequence);
        KeptMore(old(Pending()), before, h);
        WaitMore(before, h, e, t, Outside(), sequence);
        isAck, heard := acked, heard + [h];
        if !loaded {
          return -3, isAck, heard;
        }
        if answer == Link.Malformed {
          return -4, isAck, heard;
        }
        if answer != Link.Unrelated {
          return 0, isAck, heard;
        }
      }
    }

    /** `write_frame`, from the frame buffer. */
    method WriteFrame() returns (ok: bool, ghost wrote: bytes)
      requires Valid()
      modifies uart
      ensures uart.inbound == old(uart.inbound) && uart.readTurns == old(uart.readTurns)
      ensures wrote <= Outgoing(frame[..]) && uart.wire == old(uart.wire) + wrote
      ensures ok <==> Sendable(frame[..]) && wrote == Outgoing(frame[..])
      ensures !ok && Sendable(frame[..]) ==> GaveUp(old(uart.writeTurns), uart.writeTurns, false)
      ensures Rest(uart.writeTurns, old(uart.writeTurns))
      ensures Prompt(old(uart.writeTurns)) ==> |uart.writeTurns| + |wrote| >= |old(uart.writeTurns)|
    {
      hide U16At, Rest, Prompt, GaveUp;
      if U16At(frame[..], 3) > MAX_DATA_SIZE {
        WholeRest(uart.writeTurns);
        assert uart.wire + [] == uart.wire;
        return false, [];
      }
      var data := frame[..HEADER_SIZE + U16At(frame[..], 3)];
      assert data == Outgoing(frame[..]);
      var code, n := uart.WriteExact(data);
      wrote := data[..n];
      ok := code == 0;
    }

    /** The retry loop of `send_current_packet` around the frame in the buffer. */
    method SendFrame(sequence: byte) returns (sent: bool, ghost attempts: seq<Attempt>)
      requires Valid()
      modifies this, uart, frame, pendingFrame
      ensures Valid()
      ensures |attempts| <= 3 && (!sent ==> |attempts| == 3)
      ensures AllAttempted(old(frame[..]), attempts, sequence)
      ensures uart.wire == old(uart.wire) + Wrote(attempts)
      ensures old(uart.inbound) == AllConsumed(attempts) + uart.inbound
      ensures frame[..] == BufferAfter(old(frame[..]), attempts)
      ensures Chained(attempts, old(Outside()), Outside())
      ensures forall i :: 0 <= i < |attempts| ==> (Succeeded(attempts[i], sequence) <==> sent && i == |attempts| - 1)
      ensures sent ==> attempts != []
    {
      hide Attempted, Succeeded, Wrote, AllConsumed, BufferAfter, AllAttempted, Consumed, Chained;
      attempts, sent := [], false;
      var retries: nat := 0;
      ghost var start := frame[..];
      NothingAttempted(start, sequence);
      while retries < RETRY_COUNT
        invariant Valid() && |attempts| == retries <= RETRY_COUNT && !sent
        invariant AllAttempted(start, attempts, sequence)
        invariant uart.wire == old(uart.wire) + Wrote(attempts)
        invariant old(uart.inbound) == AllConsumed(attempts) + uart.inbound
        invariant frame[..] == BufferAfter(start, attempts) && Chained(attempts, old(Outside()), Outside())
        invariant forall i :: 0 <= i < |attempts| ==> !Succeeded(attempts[i], sequence)
      {
        ghost var before := attempts;
        ghost var a;
        sent, a := TryOnce(sequence);
        OneMoreAttempt(start, before, a, sequence);
        Associative(AllConsumed(before), Consumed(a.heard), uart.inbound);
        Associative(old(uart.wire), Wrote(before), a.wrote);
        attempts, retries := before + [a], retries + 1;
        if sent {
          return;
        }
      }
    }

    /** One attempt. */
    method TryOnce(sequence: byte) returns (sent: bool, ghost a: Attempt)
      requires Valid()
      modifies this, uart, frame, pendingFrame
      ensures Valid() && Attempted(old(frame[..]), a, sequence)
      ensures uart.wire == old(uart.wire) + a.wrote && old(uart.inbound) == Consumed(a.heard) + uart.inbound
      ensures frame[..] == Left(old(frame[..]), a.heard)
      ensures sent == Succeeded(a, sequence) && a.before == old(Outside()) && a.after == Outside()
    {
      hide Verdict, Outgoing, Unrelated, AllHeard, Sendable, GaveUp, Steady, Rest, Prompt;
      ghost var e := Outside();
      var ok, wrote := WriteFrame();
      NothingHeard();
      if !ok {
        assert [] + uart.inbound == uart.inbound;
        return false, Attempt(wrote, false, [], e, Outside());
      }
      var code, isAck, heard := WaitFlowControl(sequence);
      a := Attempt(wrote, true, heard, e, Outside());
      sent := code == 0 && isAck;
      VerdictOfFailure(heard, sequence);
    }

    /** `factory_frame_get_sequence` on a frame of the plan. */
    method PlannedSequence(ghost whole: bytes, ghost k: nat) returns (sequence: byte)
      requires Valid() && 1 <= |whole| <= MAX_FRAGMENTED_SIZE && k < FrameCount(|whole|) && Buildable(|whole|, k)
      requires var f := FrameAt(whole, k); frame[..HEADER_SIZE + |f.payload|] == Encode(f)
      ensures sequence == Link.SequenceAt(whole, k)
    {
      hide Encode, FrameAt, FrameCount;
      ghost var f := FrameAt(whole, k);
      Link.PlanSequence(whole, k);
      SequenceBytes(frame[..], f);
      if frame[2] == 0x01 {
        return SINGLE_SEQUENCE;
      }
      sequence := if frame[2] == 0x02 then frame[HEADER_SIZE + 4] else frame[HEADER_SIZE];
    }

    /** `send_current_packet`. For every frame of the plan, in order, `runs` holds the attempts made to send
        it, each from a buffer that held exactly this frame when the first attempt started. */
    method SendCurrentPacket(fragmenter: DeviceFragmenter, ghost whole: bytes)
      returns (code: int, ghost starts: seq<bytes>, ghost runs: seq<seq<Attempt>>)
      requires Valid() && fragmenter.OnPlan(whole, 0) && 1 <= |whole| <= MAX_FRAGMENTED_SIZE
      requires fragmenter.packet != frame && fragmenter.packet != pendingFrame
      modifies this, uart, frame, pendingFrame, fragmenter
      ensures Valid() && code in {0, -4} && uart.wire == old(uart.wire) + WroteAll(runs)
      ensures PacketRuns(whole, code, starts, runs, old(Outside()), Outside())
      ensures forall acks, tail :: AcksFor(whole, acks) && Smooth(old(Outside()), acks, tail) ==>
        code == 0 && uart.inbound == tail && forall k :: 0 <= k < |runs| ==> |runs[k]| == 1
    {
      code, starts, runs := SendPlan(fragmenter, whole);
      forall acks, tail | AcksFor(whole, acks) && Smooth(old(Outside()), acks, tail)
        ensures code == 0 && uart.inbound == tail && forall k :: 0 <= k < |runs| ==> |runs[k]| == 1
      {
        SmoothSend(whole, code, starts, runs, old(Outside()), Outside(), acks, tail);
      }
    }

    /** Its loop. */
    method SendPlan(fragmenter: DeviceFragmenter, ghost whole: bytes)
      returns (code: int, ghost starts: seq<bytes>, ghost runs: seq<seq<Attempt>>)
      requires Valid() && fragmenter.OnPlan(whole, 0) && 1 <= |whole| <= MAX_FRAGMENTED_SIZE
      requires fragmenter.packet != frame && fragmenter.packet != pendingFrame
      modifies this, uart, frame, pendingFrame, fragmenter
      ensures Valid() && code in {0, -4} && uart.wire == old(uart.wire) + WroteAll(runs)
      ensures PacketRuns(whole, code, starts, runs, old(Outside()), Outside())
    {
      hide Encode, FrameAt, FrameCount, Wrote, AllAttempted, Attempted, AllConsumed, BufferAfter, Succeeded, U16At;
      hide FrameRun, RunSucceeded, RunsChained, Chained;
      starts, runs := [], [];
      FrameCountBounds(|whole|);
      NothingWritten(uart.wire, Outside());
      while !fragmenter.hasFinished && !fragmenter.hasError
        invariant Valid() && |starts| == |runs|
        invariant fragmenter.OnPlan(whole, |runs|) && RunsChained(runs, old(Outside()), Outside())
        invariant forall k :: 0 <= k < |runs| ==>
          FrameRun(whole, k, starts[k], runs[k]) && RunSucceeded(whole, k, runs[k])
        invariant uart.wire == old(uart.wire) + WroteAll(runs)
        decreases FrameCount(|whole|) - |runs|
      {
        ghost var before, begun, e := runs, starts, Outside();
        var sent, start, attempts := SendOne(fragmenter, whole, |runs|);
        WroteMore(before, attempts, old(uart.wire));
        RunsChainedMore(before, attempts, old(Outside()), e, Outside());
        starts, runs := begun + [start], before + [attempts];
        if !sent {
          return -4, starts, runs;
        }
      }
      code := 0;
    }

    /** One turn of it: the next planned frame is built in the buffer, and sent. */
    method SendOne(fragmenter: DeviceFragmenter, ghost whole: bytes, ghost k: nat)
      returns (sent: bool, ghost start: bytes, ghost attempts: seq<Attempt>)
      requires Valid() && 1 <= |whole| <= MAX_FRAGMENTED_SIZE && fragmenter.OnPlan(whole, k) && k < FrameCount(|whole|)
      requires fragmenter.packet != frame && fragmenter.packet != pendingFrame
      modifies this, uart, frame, pendingFrame, fragmenter
      ensures Valid() && fragmenter.OnPlan(whole, k + 1) && uart.wire == old(uart.wire) + Wrote(attempts)
      ensures FrameRun(whole, k, start, attempts) && RunSucceeded(whole, k, attempts) == sent
      ensures attempts != [] && Chained(attempts, old(Outside()), Outside())
    {
      hide Encode, FrameAt, FrameCount, Wrote, AllAttempted, Attempted, AllConsumed, BufferAfter, Succeeded, U16At;
      hide FrameRun, RunSucceeded, Chained;
      FrameCountBounds(|whole|);
      InitFrame();
      fragmenter.ProcessOnPlan(frame, whole, k);
      var sequence := PlannedSequence(whole, k);
      start := frame[..];
      sent, attempts := SendFrame(sequence);
      FrameRunOf(whole, k, start, attempts, sent);
    }

    // -------------------------------------------------------------------------
    // Receiving

    /** `send_flow_control`. */
    method SendFlowControl(isAck: bool, sequence: byte) returns (ok: bool, ghost wrote: bytes)
      requires Valid()
      modifies frame, uart
      ensures Valid() && uart.inbound == old(uart.inbound) && uart.readTurns == old(uart.readTurns)
      ensures wrote <= Encode(Answer(isAck, sequence)) && uart.wire == old(uart.wire) + wrote
      ensures ok <==> wrote == Encode(Answer(isAck, sequence))
      ensures Rest(uart.writeTurns, old(uart.writeTurns)) && Spent(old(uart.writeTurns), uart.writeTurns, |wrote|)
      ensures !ok ==> GaveUp(old(uart.writeTurns), uart.writeTurns, false)
    {
      hide Encode, U16At, Decode, Rest, GaveUp, Prompt;
      InitFrame();
      ControlEncode(frame, isAck, sequence);
      AnswerStored(frame[..], Answer(isAck, sequence));
      ok, wrote := WriteFrame();
    }

    /** The body of `receive_one_packet` for the frame in the buffer. */
    method HandleFrame(assembler: DeviceAssembler, ghost raw: bytes) returns (code: int, ghost wrote: bytes)
      requires Valid() && assembler.Valid() && assembler.packet != frame && assembler.packet != pendingFrame
      requires WholeFrame(raw) && frame[..] == Fill(raw) && !assembler.hasFinished && !assembler.hasError
      modifies frame, uart, assembler, assembler.packet
      ensures Valid() && assembler.Valid()
      ensures uart.inbound == old(uart.inbound) && uart.readTurns == old(uart.readTurns)
      ensures Rest(uart.writeTurns, old(uart.writeTurns)) && Spent(old(uart.writeTurns), uart.writeTurns, |wrote|)
      ensures var x := DeviceReactions.React(old(assembler.View()), raw);
        && assembler.View() == x.next && uart.wire == old(uart.wire) + wrote
        && wrote <= ReplyBytes(x.reply)
        && code == (if x.taken && wrote != ReplyBytes(x.reply) then -7 else x.code)
        && (wrote != ReplyBytes(x.reply) ==> GaveUp(old(uart.writeTurns), uart.writeTurns, false))
    {
      hide Encode, U16At, Decode, Fill, WholeFrame, Rest, GaveUp, Prompt, DeviceAccept;
      WholeSize(raw);
      StoredFields(raw, frame[..]);
      wrote := [];
      WholeRest(uart.writeTurns);
      if frame[2] == 0xF1 || frame[2] == 0xF2 {
        assert uart.wire == uart.wire + [];
        return 0, wrote;
      }
      var sequence: byte := 0;
      if frame[2] == 0x01 {
        sequence := SINGLE_SEQUENCE;
      } else if frame[2] == 0x02 {
        sequence := frame[HEADER_SIZE + 4];
      } else if frame[2] == 0x03 {
        sequence := frame[HEADER_SIZE];
      } else {
        assert uart.wire == uart.wire + [];
        return -5, wrote;
      }
      assert DeviceReactions.SequenceIn(raw) == Some(sequence);
      var ok;
      if (frame[2] == 0x03 && sequence < assembler.sequence)
         || (frame[2] == 0x02 && assembler.sequence > 0 && sequence == 0) {
        ok, wrote := SendFlowControl(true, sequence);
        return 0, wrote;
      }
      AcceptStored(assembler.View(), raw, frame[..]);
      var e := assembler.Process(frame);
      if e != NoError {
        ok, wrote := SendFlowControl(false, sequence);
        return -6, wrote;
      }
      ok, wrote := SendFlowControl(true, sequence);
      code := if ok then 0 else -7;
    }

    /** `load_next_rx_frame`, behind `factory_frame_init`: the kept frame, or one from the line. `h` is what
        was read, if anything was. */
    method LoadNext() returns (code: int, ghost raw: bytes, ghost h: Option<Heard>)
      requires Valid()
      modifies this`hasPending, frame, uart
      ensures Valid() && !hasPending && uart.wire == old(uart.wire) && uart.writeTurns == old(uart.writeTurns)
      ensures Rest(uart.readTurns, old(uart.readTurns))
      ensures if old(Pending()).Some? then
          && h == None && raw == old(Pending()).value && code == 0
          && uart.inbound == old(uart.inbound) && uart.readTurns == old(uart.readTurns)
        else
          && h.Some? && WellHeard(h.value) && raw == h.value.part && (code == 0 <==> h.value.complete)
          && old(uart.inbound) == h.value.noise + h.value.part + uart.inbound
      ensures code == 0 ==> WholeFrame(raw) && |raw| <= MAX_SIZE && frame[..] == Fill(raw)
      ensures code != 0 ==> TooLarge(raw) || GaveUp(old(uart.readTurns), uart.readTurns, uart.inbound == [])
      ensures Steady(old(uart.readTurns), old(uart.inbound), uart.readTurns, uart.inbound)
    {
      hide U16At, Rest, GaveUp, Prompt, FirstMagic, Quiet, Steady;
      InitFrame();
      if hasPending {
        WholeRest(uart.readTurns);
        SteadyStart(uart.readTurns, uart.inbound);
        raw := Outgoing(pendingFrame[..]);
        CopyBytes(frame, 0, pendingFrame, 0, HEADER_SIZE + U16At(pendingFrame[..], 3));
        hasPending := false;
        return 0, raw, None;
      }
      ghost var heard;
      code, heard := uart.ReadFrame(frame);
      raw, h := heard.part, Some(heard);
    }

    /** One turn of the receive loop: a frame is loaded and handled, or could not be read. */
    method ReceiveTurn(assembler: DeviceAssembler)
      returns (code: int, ghost raw: bytes, ghost h: Option<Heard>, ghost reply: bytes)
      requires Valid() && assembler.Valid() && assembler.packet != frame && assembler.packet != pendingFrame
      requires !assembler.hasFinished && !assembler.hasError
      modifies this`hasPending, frame, uart, assembler, assembler.packet
      ensures Valid() && assembler.Valid() && !hasPending && uart.wire == old(uart.wire) + reply
      ensures Rest(uart.readTurns, old(uart.readTurns)) && Rest(uart.writeTurns, old(uart.writeTurns))
      ensures Spent(old(uart.writeTurns), uart.writeTurns, |reply|)
      ensures if h.None? then old(Pending()) == Some(raw) && uart.inbound == old(uart.inbound) && WholeFrame(raw)
        else
          && old(Pending()) == None && WellHeard(h.value) && raw == h.value.part
          && old(uart.inbound) == h.value.noise + h.value.part + uart.inbound
      ensures h.Some? && !h.value.complete ==>
        && code == -4 && reply == [] && assembler.View() == old(assembler.View())
        && (TooLarge(raw) || GaveUp(old(uart.readTurns), uart.readTurns, uart.inbound == []))
      ensures h.Some? && h.value.complete ==> WholeFrame(raw)
      ensures h.None? || h.value.complete ==>
        var x := DeviceReactions.React(old(assembler.View()), raw);
        && assembler.View() == x.next && reply <= ReplyBytes(x.reply)
        && code == (if x.taken && reply != ReplyBytes(x.reply) then -7 else x.code) && code != -4
        && (reply != ReplyBytes(x.reply) ==> GaveUp(old(uart.writeTurns), uart.writeTurns, false))
        && (code == 0 ==> !x.next.error)
      ensures Steady(old(uart.readTurns), old(uart.inbound), uart.readTurns, uart.inbound)
    {
      hide DeviceReactions.React, Fill, WholeFrame, Rest, GaveUp, Prompt, TooLarge, Outgoing, Sendable;
      hide Encode, Quiet, FirstMagic;
      hide Steady, Spent;
      code, raw, h := LoadNext();
      reply := [];
      if code != 0 {
        WholeRest(uart.writeTurns);
        NothingSpent(uart.writeTurns);
        assert uart.wire == uart.wire + [];
        return -4, raw, h, reply;
      }
      DeviceReactions.ReactCodes(assembler.View(), raw);
      code, reply := HandleFrame(assembler, raw);
    }

    /** `receive_one_packet`, into the assembler's packet buffer. `raws` are the frames that were loaded,
        `heard` what was read off the line for them. A normal return has reacted to every one of them by
        the receiver's rules and ends with a finished assembly; every other return has its cause. */
    method ReceiveOnePacket(assembler: DeviceAssembler)
      returns (code: int, ghost raws: seq<bytes>, ghost heard: seq<Heard>, ghost wrote: seq<bytes>)
      requires Valid() && assembler.packet != frame && assembler.packet != pendingFrame
      modifies this`hasPending, frame, uart, assembler, assembler.packet
      ensures Valid() && assembler.Valid()
      ensures AllHeard(heard) && old(uart.inbound) == Consumed(heard) + uart.inbound
      ensures Loaded(old(Pending()), heard, raws) && AllWhole(raws)
      ensures OnlyLastFails(heard, code)
      ensures Answered(DeviceFresh(assembler.packet.Length), raws, wrote)
      ensures uart.wire == old(uart.wire) + Flatten(wrote)
      ensures Spent(old(uart.writeTurns), uart.writeTurns, |Flatten(wrote)|)
      ensures Ended(DeviceFresh(assembler.packet.Length), raws, heard, code, assembler.View(),
                    GaveUp(old(uart.readTurns), uart.readTurns, uart.inbound == []),
                    GaveUp(old(uart.writeTurns), uart.writeTurns, false))
      ensures Steady(old(uart.readTurns), old(uart.inbound), uart.readTurns, uart.inbound)
    {
      hide DeviceReactions.React, DeviceReactions.ReactAll, Fill, WholeFrame, WellHeard, Rest, GaveUp, Prompt;
      hide TooLarge, Spent, Steady;
      hide Outgoing, Sendable, Consumed, Parts, Encode, Answered, Flatten, Ended, ReplyBytes, Loaded, KeptOne;
      assembler.Init();
      raws, heard, wrote := [], [], [];
      ghost var d, all, turns, writeTurns := assembler.View(), uart.inbound, uart.readTurns, uart.writeTurns;
      ghost var pending, sent: seq<Frame> := Pending(), [];
      NothingLoaded(d);
      WholeRest(turns);
      SteadyStart(turns, all);
      WholeRest(writeTurns);
      NothingSpent(writeTurns);
      while !assembler.hasFinished && !assembler.hasError
        invariant Valid() && assembler.Valid()
        invariant AllHeard(heard) && all == Consumed(heard) + uart.inbound
        invariant forall i :: 0 <= i < |heard| ==> heard[i].complete
        invariant if raws == [] then heard == [] && Pending() == pending
                  else Pending() == None && Loaded(pending, heard, raws)
        invariant AllWhole(raws) && DeviceReactions.ReactAll(d, raws) == Some((sent, assembler.View()))
        invariant Answered(d, raws, wrote) && uart.wire == old(uart.wire) + Flatten(wrote)
        invariant !assembler.hasError && (assembler.hasFinished ==> raws != [])
        invariant Rest(uart.readTurns, turns) && Rest(uart.writeTurns, writeTurns)
        invariant Spent(writeTurns, uart.writeTurns, |Flatten(wrote)|)
        invariant Steady(turns, all, uart.readTurns, uart.inbound)
        decreases |uart.inbound|, if hasPending then 1 else 0
      {
        ghost var line, before, had, answers, t := uart.inbound, raws, heard, wrote, assembler.View();
        ghost var leftReads, leftWrites := uart.readTurns, uart.writeTurns;
        ghost var raw, h, reply;
        code, raw, h, reply := ReceiveTurn(assembler);
        RestOfRest(uart.readTurns, leftReads, turns);
        SteadyOn(turns, all, leftReads, line, uart.readTurns, uart.inbound);
        RestOfRest(uart.writeTurns, leftWrites, writeTurns);
        SpentMore(writeTurns, leftWrites, uart.writeTurns, |Flatten(answers)|, |reply|);
        if h.Some? {
          HeardNext(had, h.value, all, line, uart.inbound);
          heard := had + [h.value];
        }
        CausesLater(turns, leftReads, uart.readTurns, uart.inbound == []);
        CausesLater(writeTurns, leftWrites, uart.writeTurns, false);
        if code == -4 {
          LoadedFailed(pending, had, raws, h.value);
          EndedUnread(d, raws, heard, assembler.View(), GaveUp(turns, uart.readTurns, uart.inbound == []),
                      GaveUp(writeTurns, uart.writeTurns, false));
          return -4, raws, heard, wrote;
        }
        WholeSize7(raw);
        LoadedNext(pending, had, before, raw, h);
        AnsweredNext(d, before, answers, raw, reply, old(uart.wire));
        DeviceReactions.ReactAllSnoc(d, before, raw);
        DeviceReactions.ReactCodes(t, raw);
        raws, wrote := before + [raw], answers + [reply];
        assert raws[..|raws| - 1] == before;
        if code != 0 {
          EndedRefused(d, raws, heard, code, assembler.View(), GaveUp(turns, uart.readTurns, uart.inbound == []),
                       GaveUp(writeTurns, uart.writeTurns, false));
          return code, raws, heard, wrote;
        }
        ghost var answer := DeviceReactions.React(t, raw).reply;
        sent := sent + if answer.Some? then [answer.value] else [];
      }
      code := 0;
      EndedDone(d, raws, heard, assembler.View(), GaveUp(turns, uart.readTurns, uart.inbound == []),
                GaveUp(writeTurns, uart.writeTurns, false));
    }
  }

  /** No more write turns went than bytes, if every turn moves something. */
  predicate Spent(turns: seq<Turn>, left: seq<Turn>, n: int) {
    Prompt(turns) ==> |left| + n >= |turns|
  }

  lemma CausesLater(turns: seq<Turn>, middle: seq<Turn>, left: seq<Turn>, dry: bool)
    requires Rest(middle, turns)
    ensures GaveUp(middle, left, dry) ==> GaveUp(turns, left, dry)
  {
    hide GaveUp;
    if GaveUp(middle, left, dry) {
      GaveUpLater(turns, middle, left, dry);
    }
  }

  lemma NothingSpent(turns: seq<Turn>)
    ensures Spent(turns, turns, 0)
  {
  }

  lemma SpentMore(turns: seq<Turn>, middle: seq<Turn>, left: seq<Turn>, m: nat, n: nat)
    requires Rest(middle, turns) && Spent(turns, middle, m) && Spent(middle, left, n)
    ensures Spent(turns, left, m + n)
  {
  }

  /** Why receiving ended with this code: the packet is finished; a read failed; or the last frame was
      refused, had no number, or could not be acknowledged. */
  predicate Ended(d: DeviceAssembly, raws: seq<bytes>, heard: seq<Heard>, code: int, final: DeviceAssembly,
                  readsFail: bool, writesFail: bool)
    requires AllWhole(raws)
  {
    if code == 0 then
      && DeviceReactions.ReactAll(d, raws).Some? && final == DeviceReactions.ReactAll(d, raws).value.1
      && final.finished && !final.error
    else if code == -4 then
      && DeviceReactions.ReactAll(d, raws).Some? && !DeviceReactions.ReactAll(d, raws).value.1.finished
      && heard != [] && !heard[|heard| - 1].complete
      && (TooLarge(heard[|heard| - 1].part) || readsFail)
    else
      && raws != [] && DeviceReactions.ReactAll(d, raws[..|raws| - 1]).Some?
      && var x := DeviceReactions.React(DeviceReactions.ReactAll(d, raws[..|raws| - 1]).value.1, raws[|raws| - 1]);
         if code == -7 then x.taken && writesFail else code == x.code
  }

  lemma EndedUnread(d: DeviceAssembly, raws: seq<bytes>, heard: seq<Heard>, final: DeviceAssembly, readsFail: bool,
                    writesFail: bool)
    requires AllWhole(raws) && DeviceReactions.ReactAll(d, raws).Some?
    requires !DeviceReactions.ReactAll(d, raws).value.1.finished
    requires heard != [] && !heard[|heard| - 1].complete && (TooLarge(heard[|heard| - 1].part) || readsFail)
    ensures Ended(d, raws, heard, -4, final, readsFail, writesFail)
  {
  }

  lemma EndedRefused(d: DeviceAssembly, raws: seq<bytes>, heard: seq<Heard>, code: int, final: DeviceAssembly,
                     readsFail: bool, writesFail: bool)
    requires AllWhole(raws) && code !in {0, -4} && raws != []
    requires AllWhole(raws[..|raws| - 1]) && DeviceReactions.ReactAll(d, raws[..|raws| - 1]).Some?
    requires var x := DeviceReactions.React(DeviceReactions.ReactAll(d, raws[..|raws| - 1]).value.1, raws[|raws| - 1]);
      if code == -7 then x.taken && writesFail else code == x.code
    ensures Ended(d, raws, heard, code, final, readsFail, writesFail)
  {
  }

  lemma EndedDone(d: DeviceAssembly, raws: seq<bytes>, heard: seq<Heard>, final: DeviceAssembly, readsFail: bool,
                  writesFail: bool)
    requires AllWhole(raws) && DeviceReactions.ReactAll(d, raws).Some?
    requires final == DeviceReactions.ReactAll(d, raws).value.1 && final.finished && !final.error
    ensures Ended(d, raws, heard, 0, final, readsFail, writesFail)
  {
  }

  /** Only the last read can have failed, and it did exactly if the code says so. */
  predicate OnlyLastFails(heard: seq<Heard>, code: int) {
    && (forall i :: 0 <= i < |heard| - 1 ==> heard[i].complete)
    && (heard != [] ==> (heard[|heard| - 1].complete <==> code != -4))
    && (code == -4 ==> heard != [])
  }

  predicate AllWhole(raws: seq<bytes>) {
    forall i :: 0 <= i < |raws| ==> WholeFrame(raws[i])
  }

  /** The whole frames among what was read. */
  function Parts(heard: seq<Heard>): seq<bytes> {
    if heard == [] then []
    else
      var last := heard[|heard| - 1];
      Parts(heard[..|heard| - 1]) + if last.complete then [last.part] else []
  }

  /** The frames loaded are the kept one, if there was one, and the whole frames read. */
  predicate Loaded(pending: Option<bytes>, heard: seq<Heard>, raws: seq<bytes>) {
    raws == (if pending.Some? then [pending.value] else []) + Parts(heard)
  }

  /** What was written for each frame is its reply, or a beginning of it. */
  predicate Answered(d: DeviceAssembly, raws: seq<bytes>, wrote: seq<bytes>)
    requires AllWhole(raws)
  {
    |wrote| == |raws|
    && forall i :: 0 <= i < |raws| ==>
         && DeviceReactions.ReactAll(d, raws[..i]).Some?
         && wrote[i] <= ReplyBytes(DeviceReactions.React(DeviceReactions.ReactAll(d, raws[..i]).value.1, raws[i]).reply)
  }

  lemma AnsweredNext(d: DeviceAssembly, raws: seq<bytes>, wrote: seq<bytes>, raw: bytes, reply: bytes, wire: bytes)
    requires AllWhole(raws) && WholeFrame(raw) && Answered(d, raws, wrote) && DeviceReactions.ReactAll(d, raws).Some?
    requires reply <= ReplyBytes(DeviceReactions.React(DeviceReactions.ReactAll(d, raws).value.1, raw).reply)
    ensures AllWhole(raws + [raw]) && Answered(d, raws + [raw], wrote + [reply])
    ensures wire + Flatten(wrote + [reply]) == wire + Flatten(wrote) + reply
    ensures |Flatten(wrote + [reply])| == |Flatten(wrote)| + |reply|
  {
    hide WholeFrame, DeviceReactions.React, DeviceReactions.ReactAll, ReplyBytes;
    var all := raws + [raw];
    assert all[..|raws|] == raws;
    forall i | 0 <= i < |raws| ensures all[..i] == raws[..i] && all[i] == raws[i] {
    }
    FlattenAppend(wrote, [reply]);
    assert Flatten([reply]) == reply;
  }

  lemma WholeSize7(raw: bytes)
    ensures WholeFrame(raw) ==> |raw| >= HEADER_SIZE
  {
  }

  lemma NothingLoaded(d: DeviceAssembly)
    ensures AllHeard([]) && Consumed([]) == [] && AllWhole([]) && DeviceReactions.ReactAll(d, []) == Some(([], d))
    ensures Answered(d, [], []) && Flatten([]) == []
  {
  }

  lemma HeardNext(heard: seq<Heard>, h: Heard, all: bytes, line: bytes, left: bytes)
    requires AllHeard(heard) && WellHeard(h) && all == Consumed(heard) + line && line == h.noise + h.part + left
    ensures AllHeard(heard + [h]) && all == Consumed(heard + [h]) + left
  {
    hide WellHeard, Consumed;
    HeardMore(heard, h);
    ConsumedMore(heard, h, all, line, left);
  }

  lemma LoadedFailed(pending: Option<bytes>, heard: seq<Heard>, raws: seq<bytes>, h: Heard)
    requires !h.complete
    requires if raws == [] then heard == [] && pending == None else Loaded(pending, heard, raws)
    ensures Loaded(pending, heard + [h], raws)
  {
    assert (heard + [h])[..|heard|] == heard;
  }

  lemma LoadedNext(pending: Option<bytes>, heard: seq<Heard>, raws: seq<bytes>, raw: bytes, h: Option<Heard>)
    requires if raws == [] then heard == [] else Loaded(pending, heard, raws)
    requires h.None? ==> raws == [] && pending == Some(raw)
    requires h.Some? ==> h.value.complete && h.value.part == raw && (raws == [] ==> pending == None)
    ensures Loaded(pending, if h.None? then heard else heard + [h.value], raws + [raw])
  {
    if h.Some? {
      assert (heard + [h.value])[..|heard|] == heard;
      assert raws == [] ==> Parts(heard) == [];
    }
  }

  /** The attempts to send the `k`-th frame, from a buffer that held it: the last one succeeds, or there are
      three. */
  ghost predicate FrameRun(whole: bytes, k: nat, start: bytes, attempts: seq<Attempt>) {
    && 1 <= |whole| <= MAX_FRAGMENTED_SIZE && k < FrameCount(|whole|) && Buildable(|whole|, k)
    && |start| == MAX_SIZE && start[..HEADER_SIZE + |FrameAt(whole, k).payload|] == Encode(FrameAt(whole, k))
    && AllAttempted(start, attempts, Link.SequenceAt(whole, k)) && 1 <= |attempts| <= 3
    && (forall i :: 0 <= i < |attempts| - 1 ==> !Succeeded(attempts[i], Link.SequenceAt(whole, k)))
    && (Succeeded(attempts[|attempts| - 1], Link.SequenceAt(whole, k)) || |attempts| == 3)
  }

  /** The runs lead from one state of the world to another. */
  predicate RunsChained(runs: seq<seq<Attempt>>, e: World, f: World) {
    if runs == [] then e == f
    else
      var last := runs[|runs| - 1];
      last != [] && Chained(last, last[0].before, f) && RunsChained(runs[..|runs| - 1], e, last[0].before)
  }

  lemma {:induction false} ChainedFirst(attempts: seq<Attempt>, e: World, f: World)
    requires Chained(attempts, e, f) && attempts != []
    ensures attempts[0].before == e
    decreases |attempts|
  {
    if |attempts| > 1 {
      ChainedFirst(attempts[..|attempts| - 1], e, attempts[|attempts| - 1].before);
    } else {
      assert attempts[..0] == [];
    }
  }

  lemma {:induction false} RunsChainedMore(
      runs: seq<seq<Attempt>>, attempts: seq<Attempt>, e: World, t: World, f: World)
    requires RunsChained(runs, e, t) && Chained(attempts, t, f) && attempts != []
    ensures RunsChained(runs + [attempts], e, f)
  {
    hide Chained;
    ChainedFirst(attempts, t, f);
    assert (runs + [attempts])[..|runs|] == runs;
  }

  /** The last of them was answered by an acknowledgement of this very frame. */
  ghost predicate RunSucceeded(whole: bytes, k: nat, attempts: seq<Attempt>) {
    && 1 <= |whole| <= MAX_FRAGMENTED_SIZE && k < FrameCount(|whole|) && attempts != []
    && Succeeded(attempts[|attempts| - 1], Link.SequenceAt(whole, k))
  }

  function WroteAll(runs: seq<seq<Attempt>>): bytes {
    if runs == [] then [] else WroteAll(runs[..|runs| - 1]) + Wrote(runs[|runs| - 1])
  }

  lemma NothingWritten(wire: bytes, e: World)
    ensures wire + WroteAll([]) == wire && RunsChained([], e, e)
  {
  }

  lemma WroteMore(runs: seq<seq<Attempt>>, attempts: seq<Attempt>, wire: bytes)
    ensures wire + WroteAll(runs + [attempts]) == wire + WroteAll(runs) + Wrote(attempts)
  {
    hide Wrote;
    assert (runs + [attempts])[..|runs|] == runs;
  }

  lemma FrameRunOf(whole: bytes, k: nat, start: bytes, attempts: seq<Attempt>, sent: bool)
    requires 1 <= |whole| <= MAX_FRAGMENTED_SIZE && k < FrameCount(|whole|) && Buildable(|whole|, k)
    requires |start| == MAX_SIZE && start[..HEADER_SIZE + |FrameAt(whole, k).payload|] == Encode(FrameAt(whole, k))
    requires AllAttempted(start, attempts, Link.SequenceAt(whole, k)) && 1 <= |attempts| <= RETRY_COUNT
    requires forall i :: 0 <= i < |attempts| ==>
      (Succeeded(attempts[i], Link.SequenceAt(whole, k)) <==> sent && i == |attempts| - 1)
    requires sent || |attempts| == RETRY_COUNT
    ensures FrameRun(whole, k, start, attempts) && RunSucceeded(whole, k, attempts) == sent
  {
  }

  // ---------------------------------------------------------------------------
  // A smooth transfer

  /** A world in which nothing goes wrong: the acknowledgements are on the line, in order, with quiet noise
      between them and anything behind; every turn of the UART moves something, and there are turns and time enough. */
  ghost predicate Smooth(e: World, acks: seq<Segment>, tail: bytes) {
    && AllQuiet(acks) && e.line == Wire(acks) + tail
    && Prompt(e.readTurns) && |e.readTurns| >= |e.line|
    && Prompt(e.writeTurns) && |e.writeTurns| > MAX_SIZE * |acks|
    && |e.windows| >= |acks| && forall i :: 0 <= i < |acks| ==> e.windows[i]
  }

  /** Then the first attempt succeeds, with one read. */
  lemma {:induction false} AttemptSucceeds(storage: bytes, a: Attempt, sequence: byte, acks: seq<Segment>, tail: bytes)
    requires Attempted(storage, a, sequence) && Sendable(storage) && Smooth(a.before, acks, tail)
    requires acks != [] && acks[0].frame == AckFor(sequence)
    ensures Succeeded(a, sequence) && Smooth(a.after, acks[1..], tail)
  {
    hide Wire, Quiet, WellHeard, Verdict, GaveUp, Steady, Encode, U16At;
    WriteGoesThrough(storage, a, sequence);
    WaitSucceeds(a.heard, a.before.(writeTurns := a.after.writeTurns), a.after, sequence, acks, tail);
  }

  lemma WriteGoesThrough(storage: bytes, a: Attempt, sequence: byte)
    requires Attempted(storage, a, sequence) && Sendable(storage)
    requires Prompt(a.before.writeTurns) && |a.before.writeTurns| > MAX_SIZE
    ensures a.ok && Prompt(a.after.writeTurns) && |a.after.writeTurns| >= |a.before.writeTurns| - MAX_SIZE
  {
    hide Waited, GaveUp, U16At;
    if !a.ok {
      PromptUsedUp(a.before.writeTurns, a.after.writeTurns, false);
    }
  }

  lemma {:induction false} WaitSucceeds(
      heard: seq<Heard>, e: World, f: World, sequence: byte, acks: seq<Segment>, tail: bytes)
    requires Waited(heard, e, f, sequence) && AllQuiet(acks) && e.line == Wire(acks) + tail
    requires acks != [] && acks[0].frame == AckFor(sequence)
    requires Prompt(e.readTurns) && |e.readTurns| >= |e.line| && e.windows != [] && e.windows[0]
    ensures |heard| == 1 && Verdict(heard[0], sequence) == Link.Acknowledged
    ensures f.line == Wire(acks[1..]) + tail && f.windows == e.windows[1..]
    ensures Prompt(f.readTurns) && |f.readTurns| >= |f.line|
  {
    hide Wire, Quiet, WellHeard, Verdict, GaveUp, Steady, Encode, U16At, WholeFrame, TooLarge;
    assert heard != [] by { assert heard == [] ==> f.windows == e.windows; }
    var first := heard[0];
    var left := FirstConsumed(heard, e.line, f.line);
    AckOnLine(acks, tail);
    NextOnLine(acks[0].noise, acks[0].frame, Wire(acks[1..]) + tail, first, left);
    if first.complete {
      AckJudged(first, sequence);
      OnlyOne(heard, sequence);
      ConsumedOne(first);
      assert heard == [first];
      assert first.noise + first.part + left == Consumed(heard) + f.line;
      SteadyLeft(e.readTurns, e.line, f.readTurns, f.line);
    } else {
      OnlyOne(heard, sequence);
      ConsumedOne(first);
      assert heard == [first];
      LineRanOut(e.readTurns, e.line, f.readTurns, f.line, f.line == []);
    }
  }

  lemma AckOnLine(acks: seq<Segment>, tail: bytes)
    requires acks != []
    ensures Wire(acks) + tail == acks[0].noise + Encode(acks[0].frame) + (Wire(acks[1..]) + tail)
  {
    hide Encode, Wire;
    WireStarts(acks);
  }

  lemma SteadyLeft(turns: seq<Turn>, all: bytes, left: seq<Turn>, line: bytes)
    requires Steady(turns, all, left, line) && Rest(left, turns) && Prompt(turns) && |turns| >= |all|
    ensures |left| >= |line| && Prompt(left)
  {
  }

  lemma ConsumedOne(h: Heard)
    ensures Consumed([h]) == h.noise + h.part
  {
    assert [h][..0] == [];
    assert [] + (h.noise + h.part) == h.noise + h.part;
  }

  /** What is left behind the first read. */
  lemma {:induction false} FirstConsumed(heard: seq<Heard>, all: bytes, line: bytes) returns (left: bytes)
    requires heard != [] && all == Consumed(heard) + line
    ensures all == heard[0].noise + heard[0].part + left
    ensures |heard| == 1 ==> left == line
    decreases |heard|
  {
    var n := |heard| - 1;
    if n == 0 {
      ConsumedOne(heard[0]);
      assert heard == [heard[0]];
      left := line;
    } else {
      var last := heard[n].noise + heard[n].part;
      Associative(Consumed(heard[..n]), last, line);
      left := FirstConsumed(heard[..n], all, last + line);
    }
  }

  lemma AckJudged(h: Heard, sequence: byte)
    requires h.complete && h.part == Encode(AckFor(sequence))
    ensures Verdict(h, sequence) == Link.Acknowledged
  {
    hide Encode, ControlOf;
    assert Fill(h.part)[..|h.part|] == h.part;
    ControlOfFrame(Fill(h.part), AckFor(sequence));
  }

  /** A wait ends with the first read that failed or that decides it. */
  lemma {:induction false} OnlyOne(heard: seq<Heard>, sequence: byte)
    requires heard != [] && Unrelated(heard[..|heard| - 1], sequence)
    requires heard[0].complete ==> Verdict(heard[0], sequence) != Link.Unrelated
    ensures |heard| == 1
  {
    hide WellHeard, Verdict;
    UnrelatedAt(heard, |heard| - 1, sequence);
  }

  lemma {:induction false} UnrelatedAt(heard: seq<Heard>, n: nat, sequence: byte)
    requires n <= |heard| && Unrelated(heard[..n], sequence)
    ensures forall i :: 0 <= i < n ==> heard[i].complete && Verdict(heard[i], sequence) == Link.Unrelated
  {
    hide WellHeard, Verdict;
    assert forall i :: 0 <= i < n ==> heard[..n][i] == heard[i];
  }

  /** The acknowledgements of a packet, each behind some noise. */
  ghost predicate AcksFor(whole: bytes, acks: seq<Segment>) {
    && 1 <= |whole| <= MAX_FRAGMENTED_SIZE && |acks| == FrameCount(|whole|)
    && forall k :: 0 <= k < |acks| ==> acks[k].frame == AckFor(Link.SequenceAt(whole, k))
  }

  /** What `send_current_packet` is proved to come to. */
  ghost predicate PacketRuns(whole: bytes, code: int, starts: seq<bytes>, runs: seq<seq<Attempt>>, e: World, f: World) {
    && 1 <= |whole| <= MAX_FRAGMENTED_SIZE && |starts| == |runs| <= FrameCount(|whole|)
    && (forall k :: 0 <= k < |runs| ==> FrameRun(whole, k, starts[k], runs[k]))
    && (forall k :: 0 <= k < |runs| ==> (RunSucceeded(whole, k, runs[k]) <==> code == 0 || k < |runs| - 1))
    && (if code == 0 then |runs| == FrameCount(|whole|) else runs != [])
    && RunsChained(runs, e, f)
  }

  lemma {:induction false} SmoothRuns(
      whole: bytes, starts: seq<bytes>, runs: seq<seq<Attempt>>, e: World, f: World, acks: seq<Segment>, tail: bytes)
    requires AcksFor(whole, acks) && Smooth(e, acks, tail) && |starts| == |runs| <= |acks|
    requires (forall k :: 0 <= k < |runs| ==> FrameRun(whole, k, starts[k], runs[k])) && RunsChained(runs, e, f)
    ensures Smooth(f, acks[|runs|..], tail)
    ensures forall k :: 0 <= k < |runs| ==> |runs[k]| == 1 && RunSucceeded(whole, k, runs[k])
    decreases |runs|
  {
    hide FrameRun, RunSucceeded, Smooth, Chained, FrameCount;
    if runs == [] {
      assert acks[0..] == acks;
    } else {
      var n := |runs| - 1;
      SmoothRuns(whole, starts[..n], runs[..n], e, runs[n][0].before, acks, tail);
      SmoothRun(whole, n, starts[n], runs[n], runs[n][0].before, f, acks[n..], tail);
      assert acks[n..][1..] == acks[n + 1..];
    }
  }

  lemma {:induction false} SmoothRun(
      whole: bytes, k: nat, start: bytes, attempts: seq<Attempt>, e: World, f: World, acks: seq<Segment>, tail: bytes)
    requires FrameRun(whole, k, start, attempts) && Chained(attempts, e, f) && Smooth(e, acks, tail)
    requires acks != [] && acks[0].frame == AckFor(Link.SequenceAt(whole, k))
    ensures |attempts| == 1 && RunSucceeded(whole, k, attempts) && Smooth(f, acks[1..], tail)
  {
    hide Smooth, Attempted, Succeeded, Encode, FrameCount, FrameAt;
    ChainedFirst(attempts, e, f);
    assert attempts[..0] == [];
    assert Attempted(BufferAfter(start, attempts[..0]), attempts[0], Link.SequenceAt(whole, k));
    AnswerStored(start, FrameAt(whole, k));
    AttemptSucceeds(start, attempts[0], Link.SequenceAt(whole, k), acks, tail);
    assert |attempts| == 1;
  }

  /** Progress: in a smooth world the whole packet is sent with one attempt per frame. */
  lemma {:induction false} SmoothSend(
      whole: bytes, code: int, starts: seq<bytes>, runs: seq<seq<Attempt>>, e: World, f: World,
      acks: seq<Segment>, tail: bytes)
    requires PacketRuns(whole, code, starts, runs, e, f) && AcksFor(whole, acks) && Smooth(e, acks, tail)
    ensures code == 0 && f.line == tail && forall k :: 0 <= k < |runs| ==> |runs[k]| == 1
  {
    hide FrameRun, RunSucceeded, FrameCount, RunsChained, Prompt, Quiet;
    SmoothRuns(whole, starts, runs, e, f, acks, tail);
    assert code == 0 by {
      assert runs != [] ==> RunSucceeded(whole, |runs| - 1, runs[|runs| - 1]);
    }
    assert acks[|runs|..] == [] && Wire([]) + tail == tail;
  }

  lemma SequenceBytes(storage: bytes, f: Frame)
    requires |storage| == MAX_SIZE && storage[..HEADER_SIZE + |f.payload|] == Encode(f)
    ensures storage[2] == KindCode(f.kind)
    ensures !IsControl(f) && Sequence(f).Ok? ==>
      Sequence(f).value == if storage[2] == 0x01 then SINGLE_SEQUENCE
        else if storage[2] == 0x02 then storage[HEADER_SIZE + 4] else storage[HEADER_SIZE]
  {
    hide Encode;
    DeviceReactions.EncodedPayload(f);
    assert forall i :: 0 <= i < |f.payload| ==> storage[HEADER_SIZE + i] == Encode(f)[HEADER_SIZE..][i];
    assert storage[2] == Encode(f)[2];
  }

  function ReplyBytes(reply: Option<Frame>): bytes {
    if reply.Some? then Encode(reply.value) else []
  }

  lemma AnswerStored(storage: bytes, f: Frame)
    requires |storage| == MAX_SIZE && storage[..HEADER_SIZE + |f.payload|] == Encode(f)
    ensures Sendable(storage) && Outgoing(storage) == Encode(f)
  {
    hide Encode, U16At;
    SizeField(storage, f);
  }

  lemma StoredFields(raw: bytes, storage: bytes)
    requires WholeFrame(raw) && |raw| <= MAX_SIZE && storage == Fill(raw)
    ensures |storage| == MAX_SIZE && storage[2] == raw[2]
  {
  }

  /** What lies behind a frame in the storage does not matter to the assembler. */
  lemma AcceptStored(d: DeviceAssembly, raw: bytes, storage: bytes)
    requires WholeFrame(raw) && |raw| <= MAX_SIZE && storage == Fill(raw)
    ensures |storage| >= HEADER_SIZE + U16At(storage, 3)
    ensures DeviceAccept(d, storage) == DeviceAccept(d, raw)
  {
    hide Crc16, DevicePayload;
    SizeInStorage(raw, storage);
    var size := U16At(raw, 3);
    assert storage[HEADER_SIZE..HEADER_SIZE + size] == raw[HEADER_SIZE..HEADER_SIZE + size];
  }

  lemma NothingAttempted(start: bytes, sequence: byte)
    ensures forall e :: Chained([], e, e)
    ensures AllAttempted(start, [], sequence) && Wrote([]) == [] && AllConsumed([]) == []
    ensures BufferAfter(start, []) == start
  {
  }

  lemma NothingHeard()
    ensures AllHeard([]) && Consumed([]) == []
  {
  }

  lemma VerdictOfFailure(heard: seq<Heard>, sequence: byte)
    ensures heard != [] && WaitCode(heard, sequence) != 0 ==>
      Verdict(heard[|heard| - 1], sequence) == Link.Unrelated || Verdict(heard[|heard| - 1], sequence) == Link.Malformed
    ensures heard != [] && WaitCode(heard, sequence) == 0 ==>
      Verdict(heard[|heard| - 1], sequence) != Link.Unrelated && Verdict(heard[|heard| - 1], sequence) != Link.Malformed
  {
    hide DeviceJudge;
  }

  /** The wait so far, if all of its reads concerned another frame. */
  ghost predicate WaitSoFar(heard: seq<Heard>, e: World, f: World, sequence: byte) {
    && Unrelated(heard, sequence) && e.line == Consumed(heard) + f.line && f.writeTurns == e.writeTurns
    && Rest(f.readTurns, e.readTurns) && Steady(e.readTurns, e.line, f.readTurns, f.line)
    && |heard| <= |e.windows| && f.windows == e.windows[|heard|..] && (forall i :: 0 <= i < |heard| ==> e.windows[i])
  }

  lemma NothingWaited(e: World, sequence: byte)
    ensures WaitSoFar([], e, e, sequence)
  {
    WholeRest(e.readTurns);
    SteadyStart(e.readTurns, e.line);
    assert [] + e.line == e.line;
  }

  lemma WaitTimeUp(heard: seq<Heard>, e: World, f: World, sequence: byte)
    requires WaitSoFar(heard, e, f, sequence) && (f.windows == [] || !f.windows[0])
    ensures Waited(heard, e, f, sequence) && WaitCode(heard, sequence) == -5
  {
    hide WellHeard, Verdict, Consumed, Steady, Rest, GaveUp, TooLarge;
    UnrelatedCode(heard, sequence);
  }

  /** One more read, in a turn in which time was left. */
  lemma {:induction false} WaitMore(heard: seq<Heard>, h: Heard, e: World, t: World, f: World, sequence: byte)
    requires WaitSoFar(heard, e, t, sequence) && t.windows != [] && t.windows[0]
    requires ReadOne(h, t.(windows := t.windows[1..]), f)
    ensures var all := heard + [h];
      && (h.complete && Verdict(h, sequence) == Link.Unrelated ==> WaitSoFar(all, e, f, sequence))
      && (!(h.complete && Verdict(h, sequence) == Link.Unrelated) ==> Waited(all, e, f, sequence))
      && WaitCode(all, sequence) == if !h.complete then -3
           else if Verdict(h, sequence) == Link.Unrelated then -5
           else if Verdict(h, sequence) == Link.Malformed then -4 else 0
  {
    hide WellHeard, Verdict, Consumed, Steady, Rest, GaveUp, TooLarge;
    var all := heard + [h];
    assert all[..|heard|] == heard;
    ConsumedMore(heard, h, e.line, t.line, f.line);
    RestOfRest(f.readTurns, t.readTurns, e.readTurns);
    SteadyOn(e.readTurns, e.line, t.readTurns, t.line, f.readTurns, f.line);
    if !h.complete && !TooLarge(h.part) {
      GaveUpLater(e.readTurns, t.readTurns, f.readTurns, f.line == []);
    }
  }

  lemma HeardMore(heard: seq<Heard>, h: Heard)
    requires AllHeard(heard) && WellHeard(h)
    ensures AllHeard(heard + [h])
  {
    hide WellHeard;
  }

  lemma UnrelatedCode(heard: seq<Heard>, sequence: byte)
    requires Unrelated(heard, sequence)
    ensures WaitCode(heard, sequence) == -5
  {
  }

  lemma WholeSize(part: bytes)
    requires WholeFrame(part)
    ensures |part| <= MAX_SIZE && |part| == HEADER_SIZE + U16At(Fill(part), 3)
  {
    SizeInStorage(part, Fill(part));
  }

  lemma HeldPart(part: bytes, storage: bytes)
    requires WholeFrame(part) && |part| <= MAX_SIZE && storage == Fill(part)
    ensures storage[..|part|] == part
  {
  }

  lemma CopiedFrame(storage: bytes, part: bytes)
    requires |storage| == MAX_SIZE && WholeFrame(part) && |part| <= MAX_SIZE && storage[..|part|] == part
    ensures Sendable(storage) && Outgoing(storage) == part
  {
    assert storage[3] == part[3] && storage[4] == part[4];
  }
}
