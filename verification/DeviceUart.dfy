/** The device's UART and the loops that read and write through it until a deadline
    (device/src/factory_session.c, `read_exact_until_deadline`, `write_exact_until_deadline`, `read_frame`).

    The bytes still to come are a sequence; how each turn of a loop goes is a schedule: the deadline has
    passed, the driver reports an error, or up to `n` bytes go through, 0 being none. A schedule that is
    used up is a deadline that has passed. */
module DeviceUart {
  import opened Bytes
  import opened Crc
  import opened Frames
  import opened Fragmenter
  import opened Reader

  datatype Turn = Deadline | Fault | UpTo(n: nat)

  const MAX_FAULTS: nat := 3

  /** Every turn moves something. */
  predicate Prompt(turns: seq<Turn>) {
    forall i :: 0 <= i < |turns| ==> turns[i].UpTo? && turns[i].n > 0
  }

  // ---------------------------------------------------------------------------
  // What one read of a frame leaves in the frame's storage

  function ZeroBytes(n: nat): (r: bytes)
    ensures |r| == n
  {
    seq(n, _ => 0)
  }

  /** The storage that holds `part`, zeroed behind it. Before a magic pair has come, `factory_frame_init`
      has put one there. */
  function Fill(part: bytes): (r: bytes)
    requires |part| <= MAX_SIZE
    ensures |r| == MAX_SIZE
  {
    var held := if |part| < 2 then [MAGIC_HIGH, MAGIC_LOW] else part;
    held + ZeroBytes(MAX_SIZE - |held|)
  }

  /** What a read takes off the line: the bytes before the first magic pair, the bytes from there on, and
      whether those are a whole frame. */
  datatype AnyHeard = HeardOf(noise: bytes, part: bytes, complete: bool)

  /** A frame's storage is all the room there is. */
  type Heard = h: AnyHeard | |h.part| <= MAX_SIZE witness HeardOf([], [], false)

  predicate WholeFrame(part: bytes) {
    |part| >= HEADER_SIZE && U16At(part, 3) <= MAX_DATA_SIZE && |part| == HEADER_SIZE + U16At(part, 3)
  }

  ghost predicate WellHeard(h: Heard) {
    && (h.complete <==> WholeFrame(h.part))
    && if h.part == [] then Quiet(h.noise)
       else
         && |h.part| >= 2 && FirstMagic(h.noise + h.part, |h.noise|)
         && (|h.part| > HEADER_SIZE ==> |h.part| <= HEADER_SIZE + U16At(h.part, 3))
  }

  /** The header announces more than a frame can hold. */
  predicate TooLarge(part: bytes) {
    |part| == HEADER_SIZE && U16At(part, 3) > MAX_DATA_SIZE
  }

  /** `now` is `before` with `part` written at position `at`. */
  predicate Placed(before: bytes, at: nat, part: bytes, now: bytes) {
    at + |part| <= |before| && now == before[..at] + part + before[at + |part|..]
  }

  /** What is left of a schedule after some turns. */
  predicate Rest(left: seq<Turn>, turns: seq<Turn>) {
    |left| <= |turns| && left == turns[|turns| - |left|..]
  }

  lemma WholeRest(turns: seq<Turn>)
    ensures Rest(turns, turns)
  {
  }

  lemma RestMore(left: seq<Turn>, turns: seq<Turn>)
    requires Rest(left, turns) && left != []
    ensures Rest(left[1..], turns) && (Prompt(turns) ==> left[0].UpTo? && left[0].n > 0)
    ensures left[0] == turns[|turns| - |left|]
  {
    assert left[0] == turns[|turns| - |left|];
  }

  /** If every turn moves something and there are as many turns as bytes, there still are. */
  predicate Steady(turns: seq<Turn>, all: bytes, left: seq<Turn>, inbound: bytes) {
    Prompt(turns) && |turns| >= |all| ==> |left| >= |inbound|
  }

  lemma SteadyStart(turns: seq<Turn>, all: bytes)
    ensures Steady(turns, all, turns, all)
  {
  }

  lemma SteadyMore(turns: seq<Turn>, all: bytes, left: seq<Turn>, line: bytes, chunk: bytes, inbound: bytes)
    requires Rest(left, turns) && left != [] && Steady(turns, all, left, line) && line == chunk + inbound
    requires left[0].UpTo? && left[0].n > 0 && line != [] ==> chunk != []
    ensures Steady(turns, all, left[1..], inbound)
  {
    RestMore(left, turns);
  }

  function FaultsIn(turns: seq<Turn>): nat {
    if turns == [] then 0 else FaultsIn(turns[..|turns| - 1]) + if turns[|turns| - 1].Fault? then 1 else 0
  }

  /** From turn `w` to the last one used there were so many faults, no deadline, and nothing was moved: a turn
      that could have moved something found nothing, the line being dry. */
  predicate Window(turns: seq<Turn>, left: seq<Turn>, w: nat, faults: nat, dry: bool) {
    && Rest(left, turns) && w <= |turns| - |left|
    && FaultsIn(turns[w..|turns| - |left|]) == faults
    && forall i :: w <= i < |turns| - |left| ==> !turns[i].Deadline? && (turns[i].UpTo? ==> turns[i].n == 0 || dry)
  }

  /** So many faults, with nothing moved between them or since. */
  ghost predicate Stalled(turns: seq<Turn>, left: seq<Turn>, faults: nat, dry: bool) {
    exists w: nat :: Window(turns, left, w, faults, dry)
  }

  /** Why a loop gave up after the turns used: the schedule was used up, the last turn was a deadline, or the
      last turns had three faults with nothing moved between them. */
  ghost predicate GaveUp(turns: seq<Turn>, left: seq<Turn>, dry: bool) {
    && Rest(left, turns)
    && (left == []
        || (|left| < |turns| && turns[|turns| - |left| - 1].Deadline?)
        || Stalled(turns, left, 3, dry))
  }

  lemma StallStart(turns: seq<Turn>, left: seq<Turn>, dry: bool)
    requires Rest(left, turns)
    ensures Stalled(turns, left, 0, dry)
  {
    assert turns[|turns| - |left|..|turns| - |left|] == [];
    assert Window(turns, left, |turns| - |left|, 0, dry);
  }

  /** One more turn that moves nothing. */
  lemma StallMore(turns: seq<Turn>, left: seq<Turn>, faults: nat, dry: bool, now: bool)
    requires Stalled(turns, left, faults, dry) && left != [] && (dry ==> now)
    requires left[0].UpTo? ==> left[0].n == 0 || now
    ensures !left[0].Deadline? ==> Stalled(turns, left[1..], if left[0].Fault? then faults + 1 else faults, now)
    ensures left[0].Deadline? ==> GaveUp(turns, left[1..], now)
  {
    hide FaultsIn;
    var w: nat :| Window(turns, left, w, faults, dry);
    RestMore(left, turns);
    var n := |turns| - |left|;
    FaultsInMore(turns, w, n);
    hide Rest;
    if !left[0].Deadline? {
      assert Window(turns, left[1..], w, if left[0].Fault? then faults + 1 else faults, now);
    }
  }

  lemma FaultsInMore(turns: seq<Turn>, w: nat, n: nat)
    requires w <= n < |turns|
    ensures FaultsIn(turns[w..n + 1]) == FaultsIn(turns[w..n]) + if turns[n].Fault? then 1 else 0
  {
    assert turns[w..n + 1][..n - w] == turns[w..n];
  }

  /** A loop's fault counter after one more turn. */
  function FaultsAfter(t: Turn, moved: bool, faults: nat): nat {
    if t.Fault? then faults + 1 else if moved then 0 else faults
  }

  lemma TurnCounted(turns: seq<Turn>, left: seq<Turn>, faults: nat, moved: bool, dry: bool, now: bool)
    requires Rest(left, turns) && left != [] && Stalled(turns, left, faults, dry)
    requires (dry ==> now) && faults < MAX_FAULTS
    requires if moved then left[0].UpTo? else left[0].UpTo? ==> left[0].n == 0 || now
    ensures left[0].Deadline? || FaultsAfter(left[0], moved, faults) == MAX_FAULTS ==> GaveUp(turns, left[1..], now)
    ensures !left[0].Deadline? ==> Stalled(turns, left[1..], FaultsAfter(left[0], moved, faults), now)
  {
    hide Stalled;
    RestMore(left, turns);
    if moved {
      StallStart(turns, left[1..], now);
    } else {
      StallMore(turns, left, faults, dry, now);
    }
  }

  lemma RanOut(turns: seq<Turn>, dry: bool)
    ensures GaveUp(turns, [], dry)
  {
  }

  lemma GaveUpLater(turns: seq<Turn>, middle: seq<Turn>, left: seq<Turn>, dry: bool)
    requires Rest(middle, turns) && GaveUp(middle, left, dry)
    ensures GaveUp(turns, left, dry)
  {
    if Stalled(middle, left, MAX_FAULTS, dry) {
      var w: nat :| Window(middle, left, w, MAX_FAULTS, dry);
      var before := |turns| - |middle|;
      assert turns[before + w..|turns| - |left|] == middle[w..|middle| - |left|];
      assert forall i :: before + w <= i < |turns| - |left| ==> turns[i] == middle[i - before];
      assert Window(turns, left, before + w, MAX_FAULTS, dry);
    }
  }

  /** If every turn moves something, a loop gives up only when the schedule is used up. */
  lemma PromptUsedUp(turns: seq<Turn>, left: seq<Turn>, dry: bool)
    requires Prompt(turns) && GaveUp(turns, left, dry)
    ensures left == []
  {
    if Stalled(turns, left, MAX_FAULTS, dry) {
      var w: nat :| Window(turns, left, w, MAX_FAULTS, dry);
      NoFaults(turns[w..|turns| - |left|]);
    }
  }

  lemma {:induction false} NoFaults(turns: seq<Turn>)
    requires Prompt(turns)
    ensures FaultsIn(turns) == 0
  {
    if turns != [] {
      NoFaults(turns[..|turns| - 1]);
    }
  }

  /** If there were enough turns for all bytes and each moved something, a loop gave up only at the end of the
      line. */
  lemma LineRanOut(turns: seq<Turn>, all: bytes, left: seq<Turn>, inbound: bytes, dry: bool)
    requires Steady(turns, all, left, inbound) && GaveUp(turns, left, dry)
    ensures Prompt(turns) && |turns| >= |all| ==> inbound == []
  {
    if Prompt(turns) {
      PromptUsedUp(turns, left, dry);
    }
  }

  lemma SteadyOn(turns: seq<Turn>, all: bytes, middle: seq<Turn>, line: bytes, left: seq<Turn>, inbound: bytes)
    requires Rest(middle, turns) && Steady(turns, all, middle, line) && Steady(middle, line, left, inbound)
    ensures Steady(turns, all, left, inbound)
  {
  }

  lemma PlacedMore(before: bytes, at: nat, part: bytes, more: bytes, sofar: bytes, now: bytes)
    requires Placed(before, at, part, sofar) && Placed(sofar, at + |part|, more, now)
    ensures Placed(before, at, part + more, now)
  {
  }

  lemma PlacedNothing(before: bytes, at: nat)
    requires at <= |before|
    ensures Placed(before, at, [], before)
  {
  }

  method Store(buffer: array<byte>, at: nat, data: bytes)
    requires at + |data| <= buffer.Length
    modifies buffer
    ensures Placed(old(buffer[..]), at, data, buffer[..])
  {
    for i := 0 to |data|
      invariant forall j :: 0 <= j < buffer.Length ==>
        buffer[j] == if at <= j < at + i then data[j - at] else old(buffer[j])
    {
      buffer[at + i] := data[i];
    }
  }

  class Uart {
    var inbound: bytes
    var wire: bytes
    var readTurns: seq<Turn>
    var writeTurns: seq<Turn>

    constructor (inbound: bytes, readTurns: seq<Turn>, writeTurns: seq<Turn>)
      ensures this.inbound == inbound && wire == [] && this.readTurns == readTurns && this.writeTurns == writeTurns
    {
      this.inbound, this.wire, this.readTurns, this.writeTurns := inbound, [], readTurns, writeTurns;
    }

    /** One `factory_platform_uart_read`, or the deadline. */
    method Take(buffer: array<byte>, at: nat, size: nat) returns (t: Turn, chunk: bytes)
      requires at + size <= buffer.Length && size > 0
      modifies this, buffer
      ensures wire == old(wire) && writeTurns == old(writeTurns)
      ensures t == if old(readTurns) == [] then Deadline else old(readTurns)[0]
      ensures readTurns == if old(readTurns) == [] then [] else old(readTurns)[1..]
      ensures |chunk| <= size && old(inbound) == chunk + inbound
      ensures !t.UpTo? ==> chunk == []
      ensures t.UpTo? && t.n > 0 && old(inbound) != [] ==> chunk != []
      ensures Placed(old(buffer[..]), at, chunk, buffer[..])
    {
      t := if readTurns == [] then Deadline else readTurns[0];
      readTurns := if readTurns == [] then [] else readTurns[1..];
      var n := if t.UpTo? then Min(Min(t.n, size), |inbound|) else 0;
      chunk := inbound[..n];
      Store(buffer, at, chunk);
      inbound := inbound[n..];
    }

    /** One turn of a read: the bytes go behind those that are there already. */
    method TakeMore(buffer: array<byte>, at: nat, total: nat, size: nat, ghost before: bytes, ghost got: bytes,
                    ghost all: bytes, ghost turns: seq<Turn>)
      returns (t: Turn, n: nat, ghost chunk: bytes)
      requires at + size <= buffer.Length && total == |got| < size && readTurns != []
      requires Placed(before, at, got, buffer[..]) && all == got + inbound
      requires Rest(readTurns, turns) && Steady(turns, all, readTurns, inbound)
      modifies this, buffer
      ensures wire == old(wire) && writeTurns == old(writeTurns)
      ensures t == old(readTurns)[0] && readTurns == old(readTurns)[1..]
      ensures n == |chunk| <= size - total && all == (got + chunk) + inbound
      ensures Placed(before, at, got + chunk, buffer[..])
      ensures Rest(readTurns, turns) && Steady(turns, all, readTurns, inbound)
      ensures !t.UpTo? ==> n == 0
      ensures old(inbound) == [] ==> inbound == []
      ensures t.UpTo? && n == 0 ==> t.n == 0 || inbound == []
    {
      hide Placed, Rest, Prompt, Steady;
      ghost var sofar, left, line := buffer[..], readTurns, inbound;
      RestMore(readTurns, turns);
      var taken;
      t, taken := Take(buffer, at + total, size - total);
      n, chunk := |taken|, taken;
      PlacedMore(before, at, got, chunk, sofar, buffer[..]);
      SteadyMore(turns, all, left, line, chunk, inbound);
      Associative(got, chunk, inbound);
    }

    /** `read_exact_until_deadline`: the bytes go straight into the buffer, so that a read that fails has
        left there the bytes it got. */
    method ReadExact(buffer: array<byte>, at: nat, size: nat) returns (code: int, ghost got: bytes)
      requires at + size <= buffer.Length
      modifies this, buffer
      ensures wire == old(wire) && writeTurns == old(writeTurns)
      ensures |got| <= size && old(inbound) == got + inbound
      ensures Placed(old(buffer[..]), at, got, buffer[..])
      ensures code == 0 <==> |got| == size
      ensures Rest(readTurns, old(readTurns))
      ensures code != 0 ==> GaveUp(old(readTurns), readTurns, inbound == [])
      ensures Steady(old(readTurns), old(inbound), readTurns, inbound)
    {
      hide Placed, Rest, Prompt, Steady, Stalled, GaveUp;
      ghost var all, before, turns := inbound, buffer[..], readTurns;
      var total: nat, faults: nat := 0, 0;
      got := [];
      PlacedNothing(before, at);
      WholeRest(turns);
      SteadyStart(turns, all);
      StallStart(turns, turns, inbound == []);
      while total < size
        invariant total == |got| <= size && all == got + inbound && faults < MAX_FAULTS
        invariant wire == old(wire) && writeTurns == old(writeTurns)
        invariant Placed(before, at, got, buffer[..])
        invariant Rest(readTurns, turns) && Steady(turns, all, readTurns, inbound)
        invariant Stalled(turns, readTurns, faults, inbound == [])
        decreases |readTurns|
      {
        if readTurns == [] {
          RanOut(turns, inbound == []);
          return -2, got;
        }
        ghost var left, dry := readTurns, inbound == [];
        var t, n, chunk := TakeMore(buffer, at, total, size, before, got, all, turns);
        TurnCounted(turns, left, faults, n > 0, dry, inbound == []);
        got := got + chunk;
        total := total + n;
        if t.Deadline? {
          return -2, got;
        }
        if t.Fault? {
          faults := faults + 1;
          if faults >= MAX_FAULTS {
            return -3, got;
          }
        } else if n > 0 {
          faults := 0;
        }
      }
      code := 0;
    }

    /** One turn of the magic search: the window moves on, and a byte comes in, or none. */
    method TakeByte(window: array<byte>) returns (t: Turn, chunk: bytes)
      requires window.Length == 2 && readTurns != []
      modifies this, window
      ensures wire == old(wire) && writeTurns == old(writeTurns)
      ensures t == old(readTurns)[0] && readTurns == old(readTurns)[1..]
      ensures |chunk| <= 1 && old(inbound) == chunk + inbound
      ensures !t.UpTo? ==> chunk == []
      ensures t.UpTo? && t.n > 0 && old(inbound) != [] ==> chunk != []
      ensures window[0] == old(window[1]) && window[1] == if chunk == [] then old(window[1]) else chunk[0]
    {
      hide Placed;
      window[0] := window[1];
      ghost var shifted := window[..];
      t, chunk := Take(window, 1, 1);
      OneByte(shifted, chunk, window[..]);
    }

    /** The magic search of `read_frame`. */
    method SkipToMagic() returns (code: int, ghost noise: bytes)
      modifies this
      ensures wire == old(wire) && writeTurns == old(writeTurns)
      ensures Rest(readTurns, old(readTurns))
      ensures code == 0 ==> old(inbound) == noise + MAGIC_PAIR + inbound && FirstMagic(noise + MAGIC_PAIR, |noise|)
      ensures code != 0 ==> old(inbound) == noise + inbound && Quiet(noise)
      ensures code != 0 ==> GaveUp(old(readTurns), readTurns, inbound == [])
      ensures Steady(old(readTurns), old(inbound), readTurns, inbound)
    {
      hide Rest, Prompt, Quiet, FirstMagic, Placed, Steady, Stalled, GaveUp;
      ghost var all, turns := inbound, readTurns;
      var window := new byte[2](_ => 0);
      var faults: nat := 0;
      ghost var taken: bytes := [];
      WholeRest(turns);
      SteadyStart(turns, all);
      StallStart(turns, turns, inbound == []);
      NothingQuiet();
      while true
        invariant fresh(window) && window.Length == 2 && all == taken + inbound && Quiet(taken)
        invariant window[1] == if taken == [] then 0 else taken[|taken| - 1]
        invariant wire == old(wire) && writeTurns == old(writeTurns)
        invariant Rest(readTurns, turns) && Steady(turns, all, readTurns, inbound) && faults < MAX_FAULTS
        invariant Stalled(turns, readTurns, faults, inbound == [])
        decreases |readTurns|
      {
        if readTurns == [] {
          RanOut(turns, inbound == []);
          return -2, taken;
        }
        ghost var left, line := readTurns, inbound;
        RestMore(readTurns, turns);
        var t, chunk := TakeByte(window);
        SteadyMore(turns, all, left, line, chunk, inbound);
        Associative(taken, chunk, inbound);
        TurnCounted(turns, left, faults, chunk != [], line == [], inbound == []);
        if t.Deadline? {
          return -2, taken;
        }
        if t.Fault? {
          faults := faults + 1;
          if faults >= MAX_FAULTS {
            return -3, taken;
          }
          continue;
        }
        if |chunk| == 0 {
          continue;
        }
        faults := 0;
        QuietMore(taken, chunk[0]);
        assert chunk == [chunk[0]];
        taken := taken + chunk;
        if window[0] == MAGIC_HIGH && window[1] == MAGIC_LOW {
          noise := taken[..|taken| - 2];
          assert taken == noise + MAGIC_PAIR;
          return 0, noise;
        }
      }
    }

    /** `read_frame`, into storage that `factory_frame_init` has prepared. Whatever happens, what is taken
        off the line is accounted for, and the storage holds the part of a frame that was read, with zeros
        behind it. */
    method ReadFrame(frame: array<byte>) returns (code: int, ghost h: Heard)
      requires frame.Length == MAX_SIZE && frame[..] == Fill([])
      modifies this, frame
      ensures wire == old(wire) && writeTurns == old(writeTurns)
      ensures WellHeard(h) && old(inbound) == h.noise + h.part + inbound
      ensures frame[..] == Fill(h.part) && (code == 0 <==> h.complete)
      ensures Rest(readTurns, old(readTurns))
      ensures code != 0 ==> TooLarge(h.part) || GaveUp(old(readTurns), readTurns, inbound == [])
      ensures Steady(old(readTurns), old(inbound), readTurns, inbound)
    {
      hide Rest, Prompt, Quiet, FirstMagic, Fill, U16At, GaveUp, Steady;
      ghost var turns, all := readTurns, inbound;
      ghost var noise;
      code, noise := SkipToMagic();
      if code != 0 {
        return code, HeardOf(noise, [], false);
      }
      ghost var middle := readTurns;
      FillPair();
      PairAlready(frame[..]);
      ghost var line := inbound;
      code, h := ReadBody(frame, noise);
      Regroup(noise, line, h.part, inbound);
      RestOfRest(readTurns, middle, turns);
      SteadyOn(turns, all, middle, line, readTurns, inbound);
      if code != 0 && !TooLarge(h.part) {
        GaveUpLater(turns, middle, readTurns, inbound == []);
      }
    }

    /** The rest of `read_frame`: header and payload, behind a magic pair in the storage. */
    method ReadBody(frame: array<byte>, ghost noise: bytes) returns (code: int, ghost h: Heard)
      requires frame.Length == MAX_SIZE && frame[..] == Fill(MAGIC_PAIR)
      requires FirstMagic(noise + MAGIC_PAIR, |noise|)
      modifies this, frame
      ensures wire == old(wire) && writeTurns == old(writeTurns)
      ensures WellHeard(h) && h.noise == noise && MAGIC_PAIR + old(inbound) == h.part + inbound
      ensures frame[..] == Fill(h.part) && (code == 0 <==> h.complete)
      ensures Rest(readTurns, old(readTurns))
      ensures code != 0 ==> TooLarge(h.part) || GaveUp(old(readTurns), readTurns, inbound == [])
      ensures Steady(old(readTurns), old(inbound), readTurns, inbound)
    {
      hide Rest, Prompt, Quiet, FirstMagic, Placed, Fill, U16At, GaveUp, Steady;
      ghost var all := inbound;
      ghost var turns, part, got := readTurns, MAGIC_PAIR, [];
      frame[0], frame[1] := MAGIC_HIGH, MAGIC_LOW;
      PairStays(frame[..]);
      code, got := ReadExact(frame, 2, HEADER_SIZE - 2);
      FillMore(part, got, frame[..]);
      MagicStays(noise, got);
      part := part + got;
      if code != 0 {
        return -4, HeardOf(noise, part, false);
      }
      SizeInStorage(part, frame[..]);
      var size := U16At(frame[..], 3);
      if size > MAX_DATA_SIZE {
        return -5, HeardOf(noise, part, false);
      }
      ghost var header, middle, line := part, readTurns, inbound;
      code, got := ReadExact(frame, HEADER_SIZE, size);
      RestOfRest(readTurns, middle, turns);
      SteadyOn(turns, all, middle, line, readTurns, inbound);
      FillMore(part, got, frame[..]);
      part := part + got;
      assert part == MAGIC_PAIR + part[2..];
      MagicStays(noise, part[2..]);
      SizeStays(header, got);
      if code != 0 {
        GaveUpLater(turns, middle, readTurns, inbound == []);
        return -6, HeardOf(noise, part, false);
      }
      return 0, HeardOf(noise, part, true);
    }

    /** `write_exact_until_deadline`. */
    method WriteExact(data: bytes) returns (code: int, ghost n: nat)
      modifies this
      ensures inbound == old(inbound) && readTurns == old(readTurns)
      ensures n <= |data| && wire == old(wire) + data[..n]
      ensures code == 0 <==> n == |data|
      ensures Rest(writeTurns, old(writeTurns))
      ensures code != 0 ==> GaveUp(old(writeTurns), writeTurns, false)
      ensures Prompt(old(writeTurns)) ==> |writeTurns| + n >= |old(writeTurns)|
    {
      hide Rest, Prompt, Stalled, GaveUp;
      ghost var turns := writeTurns;
      var total: nat, faults: nat := 0, 0;
      WholeRest(turns);
      StallStart(turns, turns, false);
      while total < |data|
        invariant total <= |data| && wire == old(wire) + data[..total] && faults < MAX_FAULTS
        invariant Stalled(turns, writeTurns, faults, false)
        invariant inbound == old(inbound) && readTurns == old(readTurns)
        invariant Rest(writeTurns, turns)
        invariant Prompt(turns) ==> |writeTurns| + total >= |turns|
        decreases |writeTurns|
      {
        if writeTurns == [] {
          RanOut(turns, false);
          return -2, total;
        }
        RestMore(writeTurns, turns);
        var t := writeTurns[0];
        TurnCounted(turns, writeTurns, faults, t.UpTo? && t.n > 0, false, false);
        writeTurns := writeTurns[1..];
        if t.Deadline? {
          return -2, total;
        }
        if t.Fault? {
          faults := faults + 1;
          if faults >= MAX_FAULTS {
            return -3, total;
          }
          continue;
        }
        var m := Min(t.n, |data| - total);
        assert data[..total + m] == data[..total] + data[total..total + m];
        wire := wire + data[total..total + m];
        total := total + m;
        if m > 0 {
          faults := 0;
        }
      }
      assert data[..|data|] == data;
      return 0, total;
    }
  }

  const MAGIC_PAIR: bytes := [MAGIC_HIGH, MAGIC_LOW]

  lemma RestOfRest(left: seq<Turn>, middle: seq<Turn>, turns: seq<Turn>)
    requires Rest(left, middle) && Rest(middle, turns)
    ensures Rest(left, turns) && (Prompt(turns) ==> Prompt(middle))
  {
  }

  lemma NothingQuiet()
    ensures Quiet([])
  {
  }

  lemma OneByte(shifted: bytes, chunk: bytes, now: bytes)
    requires |shifted| == 2 && |chunk| <= 1 && Placed(shifted, 1, chunk, now)
    ensures |now| == 2 && now[0] == shifted[0] && now[1] == if chunk == [] then shifted[1] else chunk[0]
  {
  }

  /** One byte more shows a magic pair at its end, or none. */
  lemma QuietMore(taken: bytes, b: byte)
    requires Quiet(taken)
    ensures var all := taken + [b];
      if taken != [] && taken[|taken| - 1] == MAGIC_HIGH && b == MAGIC_LOW
      then FirstMagic(all, |all| - 2)
      else Quiet(all)
  {
    var all := taken + [b];
    assert forall j: nat :: j + 2 <= |taken| ==> MagicAt(all, j) == MagicAt(taken, j);
  }

  lemma FillPair()
    ensures Fill([]) == Fill(MAGIC_PAIR)
  {
  }

  lemma PairAlready(storage: bytes)
    requires storage == Fill([])
    ensures storage == Fill(MAGIC_PAIR)
  {
  }

  lemma Regroup(noise: bytes, line: bytes, part: bytes, left: bytes)
    requires MAGIC_PAIR + line == part + left
    ensures noise + MAGIC_PAIR + line == noise + part + left
  {
    assert noise + MAGIC_PAIR + line == noise + (MAGIC_PAIR + line);
  }

  lemma PairStays(storage: bytes)
    requires |storage| == MAX_SIZE && storage[..2] == MAGIC_PAIR && storage[2..] == Fill(MAGIC_PAIR)[2..]
    ensures storage == Fill(MAGIC_PAIR)
  {
  }

  /** Reading on behind the part that is there. */
  lemma FillMore(part: bytes, got: bytes, now: bytes)
    requires 2 <= |part| && |part| + |got| <= MAX_SIZE && Placed(Fill(part), |part|, got, now)
    ensures now == Fill(part + got)
  {
  }

  lemma MagicStays(noise: bytes, more: bytes)
    requires FirstMagic(noise + MAGIC_PAIR, |noise|)
    ensures FirstMagic(noise + (MAGIC_PAIR + more), |noise|)
  {
    var short, long := noise + MAGIC_PAIR, noise + (MAGIC_PAIR + more);
    assert forall j: nat :: j <= |noise| ==> MagicAt(long, j) == MagicAt(short, j);
  }

  lemma SizeInStorage(part: bytes, storage: bytes)
    requires HEADER_SIZE <= |part| <= MAX_SIZE && storage == Fill(part)
    ensures U16At(storage, 3) == U16At(part, 3)
  {
  }

  lemma SizeStays(header: bytes, more: bytes)
    requires |header| >= HEADER_SIZE
    ensures U16At(header + more, 3) == U16At(header, 3)
  {
  }

  // ---------------------------------------------------------------------------
  // Reads off a line with frames on it

  /** One read off a line that starts with a frame behind quiet noise: a whole frame is that one, and a read
      that got less has not come to the end of the line. */
  lemma NextOnLine(noise: bytes, f: Frame, rest: bytes, h: Heard, left: bytes)
    requires Quiet(noise) && WellHeard(h) && h.noise + h.part + left == noise + Encode(f) + rest
    ensures h.complete ==> h.part == Encode(f) && left == rest
    ensures !h.complete ==> !TooLarge(h.part) && left != []
  {
    hide Encode, U16At;
    EncodeStarts(f);
    var line := noise + Encode(f) + rest;
    MagicOnLine(noise, f, rest);
    if h.part == [] {
      QuietPrefix(h.noise, left, |noise|);
    } else {
      MagicPrefix(h.noise, h.part, left);
      FirstMagicUnique(line, |noise|);
      assert h.noise + h.part + left == line && |h.noise| == |noise|;
      assert h.noise == line[..|noise|] == noise;
      assert h.part + left == line[|noise|..];
      assert h.part + left == Encode(f) + rest;
      PartOnLine(h.part, left, f, rest);
    }
  }

  lemma MagicOnLine(noise: bytes, f: Frame, rest: bytes)
    requires Quiet(noise)
    ensures FirstMagic(noise + Encode(f) + rest, |noise|)
  {
    hide Encode;
    var line := noise + Encode(f) + rest;
    EncodeStarts(f);
    NoEarlierMagic(noise, f, rest);
    assert line[|noise|] == Encode(f)[0] && line[|noise| + 1] == Encode(f)[1];
  }

  lemma QuietPrefix(noise: bytes, left: bytes, at: nat)
    requires Quiet(noise) && MagicAt(noise + [] + left, at)
    ensures left != []
  {
    assert left == [] ==> noise + [] + left == noise;
  }

  lemma MagicPrefix(noise: bytes, part: bytes, left: bytes)
    requires |part| >= 2 && FirstMagic(noise + part, |noise|)
    ensures FirstMagic(noise + part + left, |noise|)
  {
    var short, long := noise + part, noise + part + left;
    assert forall j: nat :: j <= |noise| ==> MagicAt(long, j) == MagicAt(short, j);
  }

  /** What was read of the frame at the head of the line. */
  lemma PartOnLine(part: bytes, left: bytes, f: Frame, rest: bytes)
    requires part + left == Encode(f) + rest
    requires |part| > HEADER_SIZE ==> |part| <= HEADER_SIZE + U16At(part, 3)
    ensures WholeFrame(part) ==> part == Encode(f) && left == rest
    ensures !WholeFrame(part) ==> !TooLarge(part) && left != []
  {
    hide Encode, U16At;
    EncodeStarts(f);
    var line := Encode(f) + rest;
    if |part| >= HEADER_SIZE {
      SizeStays(part[..HEADER_SIZE], part[HEADER_SIZE..]);
      SizeStays(part[..HEADER_SIZE], Encode(f)[HEADER_SIZE..]);
      assert part == part[..HEADER_SIZE] + part[HEADER_SIZE..];
      assert part[..HEADER_SIZE] == line[..HEADER_SIZE] == Encode(f)[..HEADER_SIZE];
      assert Encode(f) == part[..HEADER_SIZE] + Encode(f)[HEADER_SIZE..];
      assert U16At(part, 3) == |f.payload|;
      if WholeFrame(part) {
        assert part == line[..|part|] && left == line[|part|..];
      }
    }
  }
}
