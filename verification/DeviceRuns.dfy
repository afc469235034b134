/** The device's assembler over whole runs of stored frames, well-formed or not, through the wrap of its
    byte counter and past its errors (device/src/factory_frame.c, `factory_frame_assembler_process`). */
module DeviceRuns {
  import opened Bytes
  import opened Crc
  import opened Frames
  import opened Fragmenter
  import opened Assembler

  /** Bytes in a frame's storage whose size field stays inside the storage. */
  predicate IsStored(raw: bytes) {
    |raw| >= HEADER_SIZE && |raw| >= HEADER_SIZE + U16At(raw, 3)
  }

  type Stored = raw: bytes | IsStored(raw) witness [0, 0, 0, 0, 0, 0, 0]

  function Payload(raw: Stored): bytes {
    raw[HEADER_SIZE..HEADER_SIZE + U16At(raw, 3)]
  }

  /** The packet bytes a stored frame carries. */
  function Carried(raw: Stored): bytes {
    var payload := Payload(raw);
    match raw[2]
    case 0x01 => payload
    case 0x02 => if |payload| < 5 then [] else payload[5..]
    case _ => if |payload| < 1 then [] else payload[1..]
  }

  function AllCarried(raws: seq<Stored>): (r: seq<bytes>)
    ensures |r| == |raws|
  {
    seq(|raws|, k requires 0 <= k < |raws| => Carried(raws[k]))
  }

  /** A FIRST frame declaring `total`, then CONSECUTIVE frames numbered 1, 2, ..., 255, 0, 1, ... */
  predicate NumberedMod(raws: seq<Stored>, total: nat) {
    && raws != []
    && raws[0][2] == 0x02 && |Payload(raws[0])| >= 5
    && U32At(Payload(raws[0]), 0) == total && Payload(raws[0])[4] == 0
    && forall k :: 1 <= k < |raws| ==>
         raws[k][2] == 0x03 && |Payload(raws[k])| >= 1 && Payload(raws[k])[0] == k % 256
  }

  /** Where the current packet starts: at the latest frame that is not CONSECUTIVE. */
  function StartOf(raws: seq<Stored>): (i: nat)
    requires raws != []
    ensures i < |raws|
  {
    if |raws| == 1 || raws[|raws| - 1][2] != 0x03 then |raws| - 1 else StartOf(raws[..|raws| - 1])
  }

  /** The device's context, told from the frames it has taken and nothing else. */
  predicate Told(raws: seq<Stored>, d: DeviceAssembly) {
    && !d.error && |d.buffer| <= d.capacity
    && if raws == [] then d == DeviceFresh(d.capacity)
       else
         var run := raws[StartOf(raws)..];
         && d.buffer == Flatten(AllCarried(run))
         && if d.finished
            then (|run| == 1 && run[0][2] == 0x01) || (NumberedMod(run, |d.buffer|) && d.total == |d.buffer|)
            else NumberedMod(run, d.total) && d.sequence == |run| % 256 && |d.buffer| < d.total <= d.capacity
  }

  lemma CarriedSnoc(raws: seq<Stored>, raw: Stored)
    ensures Flatten(AllCarried(raws + [raw])) == Flatten(AllCarried(raws)) + Carried(raw)
  {
    hide Carried;
    assert AllCarried(raws + [raw]) == AllCarried(raws) + [Carried(raw)];
    FlattenAppend(AllCarried(raws), [Carried(raw)]);
    assert Flatten([Carried(raw)]) == Carried(raw);
  }

  lemma RunOf(raws: seq<Stored>, raw: Stored)
    ensures var all := raws + [raw];
      all[StartOf(all)..] == if raw[2] == 0x03 && raws != [] then raws[StartOf(raws)..] + [raw] else [raw]
  {
    var all := raws + [raw];
    assert all[..|all| - 1] == raws;
  }

  lemma ToldStep(raws: seq<Stored>, d: DeviceAssembly, raw: Stored)
    requires Told(raws, d) && DeviceAccept(d, raw).0 == NoError
    ensures Told(raws + [raw], DeviceAccept(d, raw).1) && DeviceAccept(d, raw).1.capacity == d.capacity
  {
    hide Crc16, U16At, U32At, Told, DevicePayload;
    HeaderDecides(d, raw);
    if raw[2] == 0x03 {
      ToldConsecutive(raws, d, raw);
    } else {
      ToldOther(raws, d, raw);
    }
  }

  lemma ToldConsecutive(raws: seq<Stored>, d: DeviceAssembly, raw: Stored)
    requires Told(raws, d) && !d.finished && raw[2] == 0x03 && DevicePayload(d, 0x03, Payload(raw)).0 == NoError
    ensures var next := DevicePayload(d, 0x03, Payload(raw)).1; Told(raws + [raw], next) && next.capacity == d.capacity
  {
    hide Payload, U32At, NumberedMod, AllCarried, Flatten, StartOf;
    assert raws != [];
    var run := raws[StartOf(raws)..];
    RunOf(raws, raw);
    CarriedSnoc(run, raw);
    NumberedModSnoc(run, raw, d.total);
    Wraps(d.sequence, |run|);
  }

  lemma ToldOther(raws: seq<Stored>, d: DeviceAssembly, raw: Stored)
    requires Told(raws, d) && !d.finished && raw[2] != 0x03 && DevicePayload(d, raw[2], Payload(raw)).0 == NoError
    requires |Payload(raw)| <= d.capacity
    ensures var next := DevicePayload(d, raw[2], Payload(raw)).1;
      Told(raws + [raw], next) && next.capacity == d.capacity
  {
    hide Payload, U32At, AllCarried, Flatten, StartOf;
    var all := raws + [raw];
    RunOf(raws, raw);
    CarriedSnoc([], raw);
    assert [] + [raw] == [raw];
    assert Flatten(AllCarried([])) == [] by { NothingCarried(); }
  }

  lemma NothingCarried()
    ensures Flatten(AllCarried([])) == []
  {
  }

  lemma NumberedModSnoc(run: seq<Stored>, raw: Stored, total: nat)
    requires NumberedMod(run, total) && raw[2] == 0x03 && |Payload(raw)| >= 1 && Payload(raw)[0] == |run| % 256
    ensures NumberedMod(run + [raw], total)
  {
    hide Payload, U32At;
  }

  lemma Wraps(sequence: byte, n: nat)
    requires sequence == n % 256
    ensures (if sequence == 255 then 0 else sequence + 1) == (n + 1) % 256
  {
  }

  // ---------------------------------------------------------------------------
  // Runs

  /** The context after a run of calls, whatever they return. */
  function After(d: DeviceAssembly, raws: seq<Stored>): DeviceAssembly {
    if raws == [] then d else DeviceAccept(After(d, raws[..|raws| - 1]), raws[|raws| - 1]).1
  }

  /** What the `i`-th call of the run returns. */
  function CodeAt(d: DeviceAssembly, raws: seq<Stored>, i: nat): DeviceError
    requires i < |raws|
  {
    DeviceAccept(After(d, raws[..i]), raws[i]).0
  }

  /** How many calls succeed before the first that does not. */
  function Taken(d: DeviceAssembly, raws: seq<Stored>): (t: nat)
    ensures t <= |raws|
  {
    if raws == [] then 0
    else
      var n := |raws| - 1;
      var t := Taken(d, raws[..n]);
      if t == n && CodeAt(d, raws, n) == NoError then n + 1 else t
  }

  /** The context when `taken` was reached and more calls followed. */
  function Latched(d: DeviceAssembly, more: bool): DeviceAssembly {
    if more && !d.finished then d.(finished := true, error := true) else d
  }

  /** Soundness over every run of calls on arbitrary stored bytes. The first `t` calls succeed and all
      later ones fail; the frames of those `t` tell the context they left: the declared total and the
      capacity are never exceeded, and a finished packet is a SINGLE payload, or the chunks of the latest
      FIRST frame and its successors, in order and of exactly the declared size, the numbers being counted
      modulo 256. If the packet was not finished then, the next call has latched the error; in any case
      nothing has changed since. */
  lemma {:induction false} DeviceSound(capacity: nat, raws: seq<Stored>)
    ensures var t := Taken(DeviceFresh(capacity), raws);
      var d := After(DeviceFresh(capacity), raws[..t]);
      && d.capacity == capacity && Told(raws[..t], d)
      && After(DeviceFresh(capacity), raws) == Latched(d, t < |raws|)
      && forall i: nat :: i < |raws| ==> (CodeAt(DeviceFresh(capacity), raws, i) == NoError <==> i < t)
  {
    hide DeviceAccept, Told;
    var s := DeviceFresh(capacity);
    if raws == [] {
      FreshTold(capacity);
    } else {
      var n := |raws| - 1;
      var init, last := raws[..n], raws[n];
      DeviceSound(capacity, init);
      var t := Taken(s, init);
      assert init[..t] == raws[..t];
      CodesOfPrefix(s, raws, n);
      if t == n {
        assert init[..n] == init;
        TakenOrLatched(raws[..n], After(s, init), last);
        assert raws[..n + 1] == raws == init + [last];
      } else {
        LatchedStays(After(s, raws[..t]), last);
      }
    }
  }

  lemma FreshTold(capacity: nat)
    ensures Told([], DeviceFresh(capacity))
  {
  }

  lemma CodesOfPrefix(d: DeviceAssembly, raws: seq<Stored>, n: nat)
    requires n <= |raws|
    ensures forall i: nat :: i < n ==> CodeAt(d, raws[..n], i) == CodeAt(d, raws, i)
  {
    hide DeviceAccept;
    forall i: nat | i < n ensures CodeAt(d, raws[..n], i) == CodeAt(d, raws, i) {
      assert raws[..n][..i] == raws[..i];
    }
  }

  lemma TakenOrLatched(raws: seq<Stored>, d: DeviceAssembly, raw: Stored)
    requires Told(raws, d)
    ensures DeviceAccept(d, raw).0 == NoError ==>
      Told(raws + [raw], DeviceAccept(d, raw).1) && DeviceAccept(d, raw).1.capacity == d.capacity
    ensures DeviceAccept(d, raw).0 != NoError ==> DeviceAccept(d, raw).1 == Latched(d, true)
  {
    if DeviceAccept(d, raw).0 == NoError {
      ToldStep(raws, d, raw);
    } else {
      hide DeviceAccept;
      ErrorLatches(d, raw);
      if d.finished {
        AlreadyDone(d, raw);
      }
    }
  }

  lemma LatchedStays(d: DeviceAssembly, raw: Stored)
    ensures DeviceAccept(Latched(d, true), raw) == (InvalidArgument, Latched(d, true))
  {
    hide DeviceAccept;
    AlreadyDone(Latched(d, true), raw);
  }
}
