/** The host's serial receive path (pc/src/stream/serial.py): the port's reader thread puts chunks in a
    queue, the caller takes bytes out in pieces of its own size.

    The reader thread touches nothing but the queue, and the caller looks at the queue only inside
    `get`, so an interleaving is what arrives during each wait. The clock is part of the schedule. */
module SerialStream {
  import opened Bytes

  /** One turn of the read loop: what arrives until the queue is asked, and whether the deadline has
      passed when the turn starts. */
  datatype Poll = Poll(arrivals: seq<bytes>, expired: bool)

  /** `timeout=None`, a timeout of at most zero, or a positive one. */
  datatype Timeout = Forever | AtOnce | Later

  /** `None`, bytes, or, without a timeout, a call that still waits, holding some bytes already. */
  datatype Outcome = NoData | Data(data: bytes) | Waiting(held: bytes)

  function Taken(r: Outcome): bytes {
    match r
    case NoData => []
    case Data(d) => d
    case Waiting(d) => d
  }

  /** A deadline that lies in the past from the start has always passed. */
  predicate DeadlinePassed(timeout: Timeout, poll: Poll) {
    timeout.AtOnce? || (timeout.Later? && poll.expired)
  }

  /** All bytes that arrive during a schedule. */
  function Arrived(polls: seq<Poll>): bytes {
    if polls == [] then [] else Flatten(polls[0].arrivals) + Arrived(polls[1..])
  }

  lemma {:induction false} ArrivedAppend(a: seq<Poll>, b: seq<Poll>)
    ensures Arrived(a + b) == Arrived(a) + Arrived(b)
  {
    if a == [] {
      assert a + b == b;
    } else {
      assert (a + b)[1..] == a[1..] + b;
      ArrivedAppend(a[1..], b);
    }
  }

  lemma ArrivedSnoc(polls: seq<Poll>, n: nat)
    requires n < |polls|
    ensures Arrived(polls[..n + 1]) == Arrived(polls[..n]) + Flatten(polls[n].arrivals)
  {
    assert polls[..n + 1] == polls[..n] + [polls[n]];
    ArrivedAppend(polls[..n], [polls[n]]);
    assert Arrived([polls[n]]) == Flatten(polls[n].arrivals) + Arrived([]);
  }

  lemma ArrivedNone(polls: seq<Poll>)
    ensures Arrived(polls[..0]) == []
  {
  }

  class SerialStream {
    var readerQueue: seq<bytes>
    var readerBuffer: bytes

    constructor ()
      ensures Valid() && Pending() == []
    {
      readerQueue, readerBuffer := [], [];
    }

    /** The queue never holds an empty chunk: a `get` that returns makes progress. */
    ghost predicate Valid()
      reads this
    {
      forall i :: 0 <= i < |readerQueue| ==> readerQueue[i] != []
    }

    /** The flat queue the two parts stand for. */
    function Pending(): bytes
      reads this
    {
      readerBuffer + Flatten(readerQueue)
    }

    /** `_Protocol.data_received`. */
    method DataReceived(data: bytes)
      requires Valid()
      modifies this
      ensures Valid() && readerBuffer == old(readerBuffer)
      ensures readerQueue == old(readerQueue) + if data == [] then [] else [data]
      ensures Pending() == old(Pending()) + data
    {
      if data != [] {
        readerQueue := readerQueue + [data];
        FlattenAppend(old(readerQueue), [data]);
        assert Flatten([data]) == data;
      }
      assert Pending() == old(Pending()) + data;
    }

    method Arrive(chunks: seq<bytes>)
      requires Valid()
      modifies this
      ensures Valid() && readerBuffer == old(readerBuffer)
      ensures old(readerQueue) <= readerQueue
      ensures Pending() == old(Pending()) + Flatten(chunks)
    {
      for i := 0 to |chunks|
        invariant Valid() && readerBuffer == old(readerBuffer)
        invariant old(readerQueue) <= readerQueue
        invariant Pending() == old(Pending()) + Flatten(chunks[..i])
      {
        DataReceived(chunks[i]);
        FlattenAppend(chunks[..i], [chunks[i]]);
        assert Flatten([chunks[i]]) == chunks[i];
        assert chunks[..i + 1] == chunks[..i] + [chunks[i]];
      }
      assert chunks[..|chunks|] == chunks;
    }

    /** `read`: the bytes returned and the bytes kept are the bytes pending before and those that came
        in the meantime, in order. `used` counts the turns of the loop.

        Fewer bytes than asked for are returned only when nothing is left over in the buffer, and then
        either the queue is empty too or the deadline had passed. Without a timeout there is no deadline; a
        positive one is looked at before every turn; one of at most zero allows one look at the queue. */
    method Read(size: int, timeout: Timeout, connected: bool, polls: seq<Poll>) returns (r: Outcome, used: nat)
      requires Valid()
      modifies this
      ensures Valid() && used <= |polls|
      ensures Taken(r) + Pending() == old(Pending()) + Arrived(polls[..used])
      ensures size <= 0 || !connected ==>
        r == NoData && used == 0 && readerBuffer == old(readerBuffer) && readerQueue == old(readerQueue)
      ensures r.Data? ==> 0 < |r.data| <= size
      ensures r.Waiting? ==> timeout.Forever? && |r.held| < size && used == |polls| && readerBuffer == []
      ensures size > 0 && connected && |Taken(r)| < size ==>
        readerBuffer == []
        && (readerQueue == [] || used == |polls| || (used > 0 && DeadlinePassed(timeout, polls[used - 1])))
      ensures connected && 0 < size <= |old(readerBuffer)| ==>
        used == 0 && readerQueue == old(readerQueue) && r == Data(old(readerBuffer)[..size])
      ensures (connected && |old(readerBuffer)| < size && timeout.AtOnce? && old(readerQueue) != [] && polls != []) ==>
        |Taken(r)| > |old(readerBuffer)|
      ensures timeout.Forever? && connected && size > 0 ==> (r.Waiting? <==> |Taken(r)| < size)
      ensures timeout.Later? ==> forall i :: 0 <= i < used - 1 ==> !polls[i].expired
      ensures timeout.Later? && used > 0 && polls[used - 1].expired ==> |Taken(r)| < size
      ensures timeout.AtOnce? ==> used <= 2 && (used == 2 ==> |Taken(r)| < size)
    {
      hide Arrived, Flatten, Pending;
      used := 0;
      ArrivedNone(polls);
      if size <= 0 || !connected {
        r := NoData;
        return;
      }
      var result := TakeBuffered(size);
      ghost var got, all := result, old(Pending());
      var singlePoll := timeout.AtOnce?;
      while |result| < size && used < |polls|
        invariant Valid() && used <= |polls| && |result| <= size
        invariant |result| < size ==> readerBuffer == []
        invariant result + Pending() == all
        invariant all == old(Pending()) + Arrived(polls[..used])
        invariant size <= |old(readerBuffer)| ==> used == 0
        invariant used == 0 ==>
          readerQueue == old(readerQueue) && result == got && singlePoll == timeout.AtOnce?
        invariant timeout.Later? ==> forall i :: 0 <= i < used ==> !polls[i].expired
        invariant if timeout.AtOnce? then used <= 1 && (singlePoll <==> used == 0) else !singlePoll
        invariant used > 0 && timeout.AtOnce? && old(readerQueue) != [] ==> |result| > |old(readerBuffer)|
        decreases |polls| - used
      {
        var poll := polls[used];
        ghost var before := Pending();
        Arrive(poll.arrivals);
        ArrivedSnoc(polls, used);
        Associative(result, before, Flatten(poll.arrivals));
        Associative(old(Pending()), Arrived(polls[..used]), Flatten(poll.arrivals));
        all := all + Flatten(poll.arrivals);
        used := used + 1;
        if DeadlinePassed(timeout, poll) && !singlePoll {
          break;
        }
        singlePoll := false;
        if readerQueue == [] {
          if timeout.Forever? {
            continue;
          }
          break;
        }
        result := TakeChunk(result, size);
      }
      if timeout.Forever? && |result| < size {
        r := Waiting(result);
      } else {
        r := if result == [] then NoData else Data(result);
      }
    }

    /** What the buffer still holds, up to `size` bytes. */
    method TakeBuffered(size: nat) returns (result: bytes)
      requires Valid()
      modifies this
      ensures Valid() && readerQueue == old(readerQueue)
      ensures result + Pending() == old(Pending()) && result + readerBuffer == old(readerBuffer)
      ensures |result| <= size && (|result| < size ==> readerBuffer == [])
    {
      var n := if size < |readerBuffer| then size else |readerBuffer|;
      result := readerBuffer[..n];
      readerBuffer := readerBuffer[n..];
      Associative(result, readerBuffer, Flatten(readerQueue));
    }

    /** The chunk that `get` returns: what fits goes to the result, the rest to the buffer, which is empty
        at that point. */
    method TakeChunk(result: bytes, size: int) returns (longer: bytes)
      requires Valid() && readerQueue != [] && |result| < size && readerBuffer == []
      modifies this
      ensures Valid() && readerQueue == old(readerQueue)[1..]
      ensures |result| < |longer| <= size && result <= longer
      ensures |longer| < size ==> readerBuffer == []
      ensures longer + Pending() == result + old(Pending())
    {
      var chunk := readerQueue[0];
      readerQueue := readerQueue[1..];
      var more := size - |result|;
      var fits, left := chunk, [];
      if |chunk| > more {
        fits, left := chunk[..more], chunk[more..];
      }
      readerBuffer := readerBuffer + left;
      longer := result + fits;
      ghost var later := Flatten(readerQueue);
      assert old(Pending()) == chunk + later && readerBuffer == left && chunk == fits + left;
      Associative(result, fits, left + later);
      Associative(fits, left, later);
    }

    /** Any run of arrivals and reads, of any sizes, with and without a connection: what the reads gave
        and what is left is what came in, in order. `uses[i]` is how many turns the i-th read took. A read
        that gives less than it could without an excuse has emptied the queue: everything that came so far
        has been given. */
    method Run(calls: seq<Call>) returns (outcomes: seq<bytes>, uses: seq<nat>)
      requires Valid()
      modifies this
      ensures Valid() && |outcomes| == |calls| && FitsCalls(calls, uses)
      ensures Flatten(outcomes) + Pending() == old(Pending()) + CameIn(calls, uses)
      ensures forall i :: 0 <= i < |calls| ==> Bounded(calls[i], outcomes[i])
      ensures forall i :: 0 <= i < |calls| ==> ExcusedOrEmptied(old(Pending()), calls, outcomes, uses, i)
    {
      hide Pending, Flatten, CameIn, Came;
      outcomes, uses := [], [];
      NothingCame(calls);
      for i := 0 to |calls|
        invariant Valid() && |outcomes| == i && FitsCalls(calls[..i], uses)
        invariant Flatten(outcomes) + Pending() == old(Pending()) + CameIn(calls[..i], uses)
        invariant forall j :: 0 <= j < i ==> Bounded(calls[j], outcomes[j])
        invariant forall j :: 0 <= j < i ==> ExcusedOrEmptied(old(Pending()), calls, outcomes, uses, j)
      {
        ghost var before, sofar := Pending(), CameIn(calls[..i], uses);
        var got, used := Perform(calls[i]);
        ghost var came := Came(calls[i], used);
        CameInSnoc(calls, i, uses, used);
        FlattenSnoc(outcomes, got);
        Associative(Flatten(outcomes), got, Pending());
        Associative(Flatten(outcomes), before, came);
        Associative(old(Pending()), sofar, came);
        ghost var given, taken := outcomes, uses;
        outcomes, uses := outcomes + [got], uses + [used];
        assert outcomes[..i + 1] == outcomes && uses[..i + 1] == uses;
        forall j | 0 <= j < i ensures ExcusedOrEmptied(old(Pending()), calls, outcomes, uses, j) {
          assert ExcusedOrEmptied(old(Pending()), calls, given, taken, j);
          assert outcomes[..j + 1] == given[..j + 1] && uses[..j + 1] == taken[..j + 1];
        }
      }
      assert calls[..|calls|] == calls;
    }

    /** One arrival or one read. */
    method Perform(call: Call) returns (got: bytes, used: nat)
      requires Valid()
      modifies this
      ensures Valid() && used <= |call.Schedule()|
      ensures got + Pending() == old(Pending()) + Came(call, used)
      ensures Bounded(call, got)
      ensures !Excused(call, got, used) ==> Pending() == []
    {
      NothingCame([]);
      hide Flatten;
      match call {
        case Receive(data) =>
          DataReceived(data);
          got, used := [], 0;
        case Fetch(size, timeout, connected, polls) =>
          var r;
          r, used := Read(size, timeout, connected, polls);
          got := Taken(r);
      }
    }
  }

  datatype Call = Receive(data: bytes) | Fetch(size: int, timeout: Timeout, connected: bool, polls: seq<Poll>)
  {
    function Schedule(): seq<Poll> {
      if Fetch? then polls else []
    }
  }

  /** A read gives at most what was asked for, and nothing without a connection; an arrival gives nothing. */
  predicate Bounded(call: Call, got: bytes) {
    match call
    case Receive(_) => got == []
    case Fetch(size, _, connected, _) => if connected && size > 0 then |got| <= size else got == []
  }

  /** A read was not asked for anything, gave all it was asked for, or stopped at a deadline or at the
      end of its schedule. */
  predicate Excused(call: Call, got: bytes, used: nat)
    requires used <= |call.Schedule()|
  {
    match call
    case Receive(_) => true
    case Fetch(size, timeout, connected, polls) =>
      !connected || |got| >= size || used == |polls| || (used > 0 && DeadlinePassed(timeout, polls[used - 1]))
  }

  /** The i-th call has an excuse, or after it everything that came has been given. */
  predicate ExcusedOrEmptied(start: bytes, calls: seq<Call>, outcomes: seq<bytes>, uses: seq<nat>, i: nat) {
    && i < |outcomes| && i < |uses| && i < |calls| && FitsCalls(calls[..i + 1], uses[..i + 1])
    && (Excused(calls[i], outcomes[i], uses[i])
        || Flatten(outcomes[..i + 1]) == start + CameIn(calls[..i + 1], uses[..i + 1]))
  }

  predicate FitsCalls(calls: seq<Call>, uses: seq<nat>) {
    |uses| == |calls| && forall i :: 0 <= i < |calls| ==> uses[i] <= |calls[i].Schedule()|
  }

  /** What comes in during one call that takes `used` turns. */
  function Came(call: Call, used: nat): bytes
    requires used <= |call.Schedule()|
  {
    match call
    case Receive(data) => data
    case Fetch(_, _, _, polls) => Arrived(polls[..used])
  }

  /** What comes in during a run. */
  function CameIn(calls: seq<Call>, uses: seq<nat>): bytes
    requires FitsCalls(calls, uses)
  {
    if calls == [] then []
    else
      var n := |calls| - 1;
      CameIn(calls[..n], uses[..n]) + Came(calls[n], uses[n])
  }

  lemma NothingCame(calls: seq<Call>)
    ensures CameIn(calls[..0], []) == [] && Flatten([]) == []
  {
  }

  lemma CameInSnoc(calls: seq<Call>, i: nat, uses: seq<nat>, used: nat)
    requires i < |calls| && FitsCalls(calls[..i], uses) && used <= |calls[i].Schedule()|
    ensures FitsCalls(calls[..i + 1], uses + [used])
    ensures CameIn(calls[..i + 1], uses + [used]) == CameIn(calls[..i], uses) + Came(calls[i], used)
  {
    hide Came;
    assert calls[..i + 1][..i] == calls[..i] && (uses + [used])[..i] == uses;
  }

  lemma FlattenSnoc(chunks: seq<bytes>, last: bytes)
    ensures Flatten(chunks + [last]) == Flatten(chunks) + last
  {
    FlattenAppend(chunks, [last]);
    assert Flatten([last]) == last;
  }
}
