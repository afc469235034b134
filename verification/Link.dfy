/** Sending and receiving one packet over a frame port (pc/src/frame/link.py).

    The port hands out the results of successive frame reads, in order; when there are no more, the
    deadline passes. It accepts a number of writes and then refuses. Module Reader is what produces
    the results from a byte stream. */
module Link {
  import opened Bytes
  import opened Frames
  import opened Fragmenter
  import opened Assembler

  // ---------------------------------------------------------------------------
  // The rules of both ends

  /** What the receiver does with one frame: the frame it sends back, and how it goes on. */
  datatype Reaction = Reaction(reply: Option<Frame>, next: Assembly, failure: Option<FrameError>)

  function React(s: Assembly, f: Frame): Reaction {
    if IsControl(f) then Reaction(None, s, None)
    else if Sequence(f).Err? then Reaction(None, s, Some(ArgumentError))
    else
      var sequence := Sequence(f).value;
      if f.kind == Consecutive && sequence < s.expected then Reaction(Some(AckFor(sequence)), s, None)
      else if f.kind == First && s.expected > 0 && sequence == 0 then Reaction(Some(AckFor(sequence)), s, None)
      else
        match Accept(s, f)
        case Err(e) => Reaction(Some(NackFor(sequence)), s, Some(e))
        case Ok(next) => Reaction(Some(AckFor(sequence)), next, None)
  }

  /** The receiver has this frame already, by its number. */
  predicate IsDuplicate(s: Assembly, f: Frame) {
    && Sequence(f).Ok?
    && ((f.kind == Consecutive && Sequence(f).value < s.expected)
        || (f.kind == First && s.expected > 0 && Sequence(f).value == 0))
  }

  /** What the receiver makes of any frame: answers are ignored, a data frame without a number raises with no
      reply, one it has is acknowledged again, and the rest is acknowledged if the assembler takes it, and
      refused, with the assembler's error, if not. */
  lemma ReactExact(s: Assembly, f: Frame)
    ensures var x := React(s, f);
      if IsControl(f) then x == Reaction(None, s, None)
      else if Sequence(f).Err? then x.reply == None && x.next == s && x.failure == Some(ArgumentError)
      else if IsDuplicate(s, f) then x == Reaction(Some(FrameOf(Ack, [Sequence(f).value])), s, None)
      else if Accept(s, f).Ok? then x == Reaction(Some(FrameOf(Ack, [Sequence(f).value])), Accept(s, f).value, None)
      else x == Reaction(Some(FrameOf(Nack, [Sequence(f).value])), s, Some(Accept(s, f).error))
  {
  }

  function Reply(r: Reaction): seq<Frame> {
    if r.reply.Some? then [r.reply.value] else []
  }

  /** What the sender makes of one frame while it waits for the answer to `sequence`. */
  datatype Answer = Unrelated | Acknowledged | Refused | Malformed

  function Judge(f: Frame, sequence: byte): Answer {
    if !IsControl(f) then Unrelated
    else if Sequence(f).Err? then Malformed
    else if Sequence(f).value != sequence then Unrelated
    else if f.kind == Ack then Acknowledged
    else Refused
  }

  /** The sequence number of the `k`-th frame of a packet. */
  function SequenceAt(packet: bytes, k: nat): byte
    requires 1 <= |packet| <= MAX_FRAGMENTED_SIZE && k < FrameCount(|packet|)
  {
    FrameCountBounds(|packet|);
    if |packet| <= MAX_DATA_SIZE then SINGLE_SEQUENCE else k
  }

  lemma SequenceOfFrame(packet: bytes, k: nat)
    requires packet != [] && k < FrameCount(|packet|) && Buildable(|packet|, k)
    ensures Sequence(FrameAt(packet, k)) == Ok(if |packet| <= MAX_DATA_SIZE then SINGLE_SEQUENCE else k)
  {
    hide FrameCount;
    if |packet| > MAX_DATA_SIZE && k == 0 {
      assert (U32Be(|packet|) + [0] + Chunk(packet, 0))[4] == 0;
    }
  }

  lemma NumberOfPlan(packet: bytes, k: nat)
    requires packet != [] && k < FrameCount(|packet|) && Buildable(|packet|, k)
    ensures Sequence(FrameAt(packet, k)) == Ok(NumberOf(|packet|, k))
  {
    hide FrameAt, FrameCount;
    SequenceOfFrame(packet, k);
  }

  lemma PlanSequence(packet: bytes, k: nat)
    requires 1 <= |packet| <= MAX_FRAGMENTED_SIZE && k < FrameCount(|packet|)
    ensures Sequence(Plan(packet)[k]) == Ok(SequenceAt(packet, k))
    ensures !IsControl(Plan(packet)[k]) && Buildable(|packet|, k) && Plan(packet)[k] == FrameAt(packet, k)
    ensures forall j :: 0 <= j < FrameCount(|packet|) && SequenceAt(packet, j) == SequenceAt(packet, k) ==> j == k
  {
    FrameCountBounds(|packet|);
    if |packet| > MAX_DATA_SIZE && k == 0 {
      assert (U32Be(|packet|) + [0] + Chunk(packet, 0))[4] == 0;
    }
  }

  /** The receiver's run over a sequence of frames, while none of them makes it raise: everything it
      sends back, and the assembly it ends with. */
  function ReactAll(s: Assembly, frames: seq<Frame>): Option<(seq<Frame>, Assembly)> {
    if frames == [] then Some(([], s))
    else match ReactAll(s, frames[..|frames| - 1])
      case None => None
      case Some((sent, t)) =>
        var r := React(t, frames[|frames| - 1]);
        if t.finished || r.failure.Some? then None else Some((sent + Reply(r), r.next))
  }

  lemma ReactAllSnoc(s: Assembly, frames: seq<Frame>, f: Frame)
    requires ReactAll(s, frames).Some?
    ensures var (sent, t) := ReactAll(s, frames).value;
      ReactAll(s, frames + [f]) ==
        if t.finished || React(t, f).failure.Some? then None
        else Some((sent + Reply(React(t, f)), React(t, f).next))
  {
    assert (frames + [f])[..|frames|] == frames;
  }

  function Repeated(f: Frame, n: nat): (r: seq<Frame>)
    ensures |r| == n && (forall i :: 0 <= i < n ==> r[i] == f) && r == seq(n, _ => f)
  {
    seq(n, _ => f)
  }

  // ---------------------------------------------------------------------------
  // The two ends as they run

  /** The results of successive reads of frames. */
  type Reads = seq<Result<Frame, FrameError>>

  class FramePort {
    var inbound: Reads
    var outbound: seq<Frame>
    var credits: nat

    constructor (inbound: Reads, credits: nat)
      ensures this.inbound == inbound && outbound == [] && this.credits == credits
    {
      this.inbound, this.outbound, this.credits := inbound, [], credits;
    }

    /** `_read_frame`: the next result, or the deadline. */
    method ReadFrame() returns (r: Result<Frame, FrameError>)
      modifies this
      ensures outbound == old(outbound) && credits == old(credits)
      ensures old(inbound) == [] ==> r == Err(TimeoutError) && inbound == []
      ensures old(inbound) != [] ==> r == old(inbound)[0] && inbound == old(inbound)[1..]
    {
      if inbound == [] {
        return Err(TimeoutError);
      }
      r, inbound := inbound[0], inbound[1..];
    }

    /** `_write_frame`. */
    method WriteFrame(f: Frame) returns (r: Result<(), FrameError>)
      modifies this
      ensures inbound == old(inbound)
      ensures old(credits) == 0 ==> r == Err(IoError) && outbound == old(outbound) && credits == 0
      ensures old(credits) > 0 ==> r == Ok(()) && outbound == old(outbound) + [f] && credits == old(credits) - 1
    {
      if credits == 0 {
        return Err(IoError);
      }
      outbound, credits := outbound + [f], credits - 1;
      r := Ok(());
    }
  }

  /** The first data frame seen while waiting for an answer is kept for the next receive. */
  function Kept(pending: Option<Frame>, seen: seq<Frame>): Option<Frame> {
    if seen == [] then pending
    else
      var before := Kept(pending, seen[..|seen| - 1]);
      if before.None? && !IsControl(seen[|seen| - 1]) then Some(seen[|seen| - 1]) else before
  }

  /** It is the first one, unless one is kept already. */
  lemma {:induction false} KeptExact(pending: Option<Frame>, seen: seq<Frame>, k: nat)
    requires k <= |seen| && forall i :: 0 <= i < k ==> IsControl(seen[i])
    ensures pending.Some? ==> Kept(pending, seen) == pending
    ensures pending.None? && k == |seen| ==> Kept(pending, seen) == None
    ensures pending.None? && k < |seen| && !IsControl(seen[k]) ==> Kept(pending, seen) == Some(seen[k])
    decreases |seen|
  {
    if seen != [] {
      var n := |seen| - 1;
      KeptExact(pending, seen[..n], if k <= n then k else n);
    }
  }

  /** The frames a sequence of successful reads returned. */
  predicate AreReads(results: Reads, frames: seq<Frame>) {
    |results| == |frames| && forall i :: 0 <= i < |results| ==> results[i] == Ok(frames[i])
  }

  /** A frame that acknowledges `sequence`. */
  predicate Acks(result: Result<Frame, FrameError>, sequence: byte) {
    result.Ok? && Judge(result.value, sequence) == Acknowledged
  }

  /** Why a wait for the answer to `sequence` raised, after reading the frames `seen`, with `left` still to
      come: the reads ran out, one of them raised, or an answer without a sequence byte came. */
  ghost predicate WaitFailed(inbound: Reads, seen: seq<Frame>,
                             left: Reads, sequence: byte, e: FrameError) {
    var n := |seen|;
    && n <= |inbound| && AreReads(inbound[..n], seen)
    && (forall i :: 0 <= i < n - 1 ==> Judge(seen[i], sequence) == Unrelated)
    && if n > 0 && Judge(seen[n - 1], sequence) != Unrelated
       then Judge(seen[n - 1], sequence) == Malformed && e == ArgumentError && left == inbound[n..]
       else if n == |inbound| then e == TimeoutError && left == []
       else inbound[n] == Err(e) && left == inbound[n + 1..]
  }

  /** A wait that read `seen` and was answered by the last of it. */
  predicate WaitAnswered(inbound: Reads, seen: seq<Frame>,
                         left: Reads, sequence: byte, isAck: bool) {
    && seen != [] && |seen| <= |inbound| && AreReads(inbound[..|seen|], seen) && left == inbound[|seen|..]
    && (forall i :: 0 <= i < |seen| - 1 ==> Judge(seen[i], sequence) == Unrelated)
    && Judge(seen[|seen| - 1], sequence) == (if isAck then Acknowledged else Refused)
  }

  /** Reads that keep the sender waiting or make it write again. */
  predicate AllTolerated(taken: Reads, sequence: byte) {
    forall i :: 0 <= i < |taken| ==>
      taken[i].Ok? && (Judge(taken[i].value, sequence) == Unrelated || Judge(taken[i].value, sequence) == Refused)
  }

  /** How many of the reads refuse `sequence`. */
  function Refusals(taken: Reads, sequence: byte): nat {
    if taken == [] then 0
    else
      var last := taken[|taken| - 1];
      Refusals(taken[..|taken| - 1], sequence) + if last.Ok? && Judge(last.value, sequence) == Refused then 1 else 0
  }

  lemma {:induction false} OneRefusal(taken: Reads, seen: seq<Frame>, sequence: byte)
    requires AllTolerated(taken, sequence)
    requires forall i :: 0 <= i < |seen| - 1 ==> Judge(seen[i], sequence) == Unrelated
    requires seen != [] ==> Judge(seen[|seen| - 1], sequence) in {Unrelated, Refused}
    ensures var all := taken + seq(|seen|, i requires 0 <= i < |seen| => Ok(seen[i]));
      && AllTolerated(all, sequence)
      && Refusals(all, sequence) == Refusals(taken, sequence)
         + if seen != [] && Judge(seen[|seen| - 1], sequence) == Refused then 1 else 0
    decreases |seen|
  {
    hide Judge;
    var all: Reads := taken + seq(|seen|, i requires 0 <= i < |seen| => Ok(seen[i]));
    if seen == [] {
      assert all == taken;
    } else {
      var init := seen[..|seen| - 1];
      OneRefusal(taken, init, sequence);
      assert all[..|all| - 1] == taken + seq(|init|, i requires 0 <= i < |init| => Ok(init[i]));
    }
  }

  lemma ReadsAre(taken: Reads, more: Reads, seen: seq<Frame>)
    requires AreReads(more, seen)
    ensures taken + more == taken + seq(|seen|, i requires 0 <= i < |seen| => Ok(seen[i]))
  {
  }

  /** The retry loop around one frame succeeds after `n` writes: each but the last was refused by one of the
      first `mark` reads, all of which it tolerates, and the next read acknowledges. */
  predicate FrameSent(inbound: Reads, retries: nat, sequence: byte, n: nat, mark: nat) {
    && 1 <= n <= retries && mark < |inbound|
    && AllTolerated(inbound[..mark], sequence) && Refusals(inbound[..mark], sequence) == n - 1
    && Acks(inbound[mark], sequence)
  }

  /** Why the retry loop around one frame raised, after `n` writes, of which every one but perhaps the last
      was refused by an answer among the first `mark` reads: no retry was left, a write was refused by the
      stream, or the wait after the last write raised. */
  ghost predicate FrameFailed(inbound: Reads, credits: nat, retries: nat, sequence: byte,
                              n: nat, mark: nat, left: Reads, e: FrameError) {
    && n <= credits && n <= retries && mark <= |inbound| && AllTolerated(inbound[..mark], sequence)
    && var refused := Refusals(inbound[..mark], sequence);
       || (refused == n && e == IoError && (n == retries || n == credits) && left == inbound[mark..])
       || (refused + 1 == n && exists seen :: WaitFailed(inbound[mark..], seen, left, sequence, e))
  }

  lemma {:induction false} RefusalsGrow(inbound: Reads, sequence: byte, i: nat, j: nat)
    requires i <= j <= |inbound|
    ensures Refusals(inbound[..i], sequence) <= Refusals(inbound[..j], sequence)
    decreases j - i
  {
    hide Judge;
    if i < j {
      RefusalsGrow(inbound, sequence, i, j - 1);
      assert inbound[..j][..j - 1] == inbound[..j - 1];
    }
  }

  lemma NotAcknowledged(inbound: Reads, sequence: byte, mark: nat, m: nat)
    requires m < mark <= |inbound| && AllTolerated(inbound[..mark], sequence)
    ensures !Acks(inbound[m], sequence) && inbound[m].Ok? && Judge(inbound[m].value, sequence) != Malformed
  {
    hide Judge;
    assert inbound[m] == inbound[..mark][m];
  }

  /** There is one way to succeed. */
  lemma SentUnique(inbound: Reads, retries: nat, sequence: byte, n: nat, mark: nat, p: nat, m: nat)
    requires FrameSent(inbound, retries, sequence, n, mark) && FrameSent(inbound, retries, sequence, p, m)
    ensures n == p && mark == m
  {
    hide AllTolerated, Refusals, Acks;
    if m < mark {
      NotAcknowledged(inbound, sequence, mark, m);
    }
    if mark < m {
      NotAcknowledged(inbound, sequence, m, mark);
    }
  }

  /** And a loop that raised could not have succeeded. */
  lemma FailedNotSent(inbound: Reads, credits: nat, retries: nat, sequence: byte, n: nat, mark: nat, left: Reads,
                      e: FrameError, p: nat, m: nat)
    requires FrameFailed(inbound, credits, retries, sequence, n, mark, left, e)
    ensures !(p <= credits && FrameSent(inbound, retries, sequence, p, m))
  {
    hide AllTolerated, Refusals, Acks, WaitFailed;
    if p <= credits && FrameSent(inbound, retries, sequence, p, m) {
      if m < mark {
        NotAcknowledged(inbound, sequence, mark, m);
      }
      RefusalsGrow(inbound, sequence, mark, m);
      var seen :| WaitFailed(inbound[mark..], seen, left, sequence, e);
      WaitNotAnswered(inbound, mark, m, seen, left, sequence, e);
    }
  }

  lemma WaitNotAnswered(inbound: Reads, mark: nat, m: nat, seen: seq<Frame>, left: Reads, sequence: byte, e: FrameError)
    requires mark <= m < |inbound| && WaitFailed(inbound[mark..], seen, left, sequence, e)
    requires AllTolerated(inbound[..m], sequence)
    ensures !Acks(inbound[m], sequence)
  {
    hide Judge;
    var rest, n := inbound[mark..], |seen|;
    assert forall i :: 0 <= i < m ==> inbound[..m][i] == inbound[i];
    assert forall i :: 0 <= i < |rest| ==> rest[i] == inbound[mark + i];
    assert forall i :: 0 <= i < n ==> rest[..n][i] == rest[i] && rest[i] == Ok(seen[i]);
  }

  /** The number by which the `k`-th frame is acknowledged. */
  function NumberOf(size: nat, k: nat): byte
    requires Buildable(size, k)
  {
    if size <= MAX_DATA_SIZE then SINGLE_SEQUENCE else k % 256
  }

  /** Where the reads for the `k`-th frame start, when those for the frames before end at `ends`. */
  function StartAt(ends: seq<nat>, k: nat): nat
    requires k <= |ends|
  {
    if k == 0 then 0 else ends[k - 1]
  }

  /** The first frames were sent, the `k`-th with `counts[k]` writes, its reads ending at `ends[k]`. */
  predicate FramesSent(packet: bytes, retries: nat, inbound: Reads, counts: seq<nat>, ends: seq<nat>) {
    && |ends| == |counts| && (counts != [] ==> packet != [] && |counts| <= FrameCount(|packet|))
    && forall k :: 0 <= k < |counts| ==> SentBetween(packet, retries, inbound, k, counts[k], StartAt(ends, k), ends[k])
  }

  /** The `k`-th frame was sent with `n` writes and the reads from `start` to `end`. */
  predicate SentBetween(packet: bytes, retries: nat, inbound: Reads, k: nat, n: nat, start: nat, end: nat) {
    && Buildable(|packet|, k) && start < end <= |inbound|
    && FrameSent(inbound[start..], retries, NumberOf(|packet|, k), n, end - start - 1)
  }

  lemma FramesSentMore(packet: bytes, retries: nat, inbound: Reads, counts: seq<nat>, ends: seq<nat>, n: nat, mark: nat)
    requires FramesSent(packet, retries, inbound, counts, ends) && StartAt(ends, |ends|) <= |inbound|
    requires packet != [] && |counts| < FrameCount(|packet|) && Buildable(|packet|, |counts|)
    requires FrameSent(inbound[StartAt(ends, |ends|)..], retries, NumberOf(|packet|, |counts|), n, mark)
    ensures 1 <= n <= retries
    ensures var end := StartAt(ends, |ends|) + mark + 1;
      && end <= |inbound| && FramesSent(packet, retries, inbound, counts + [n], ends + [end])
      && inbound[StartAt(ends, |ends|)..][mark + 1..] == inbound[end..]
  {
    hide FrameSent, FrameCount, SentBetween, Buildable;
    MarkInside(inbound[StartAt(ends, |ends|)..], retries, NumberOf(|packet|, |counts|), n, mark);
    var start := StartAt(ends, |ends|);
    var end := start + mark + 1;
    var all := ends + [end];
    BetweenFromMark(packet, retries, inbound, |counts|, n, start, mark);
    forall k | 0 <= k < |all|
      ensures SentBetween(packet, retries, inbound, k, (counts + [n])[k], StartAt(all, k), all[k])
    {
      assert StartAt(all, k) == StartAt(ends, k);
    }
  }

  lemma BetweenFromMark(packet: bytes, retries: nat, inbound: Reads, k: nat, n: nat, start: nat, mark: nat)
    requires Buildable(|packet|, k) && start <= |inbound|
    requires FrameSent(inbound[start..], retries, NumberOf(|packet|, k), n, mark)
    ensures SentBetween(packet, retries, inbound, k, n, start, start + mark + 1)
  {
    hide AllTolerated, Refusals, Acks;
  }

  lemma MarkInside(inbound: Reads, retries: nat, sequence: byte, n: nat, mark: nat)
    requires FrameSent(inbound, retries, sequence, n, mark)
    ensures mark < |inbound| && 1 <= n <= retries
  {
  }

  /** Everything these frames put on the wire: `counts[k]` copies of the `k`-th, in order. */
  function SentCopies(packet: bytes, counts: seq<nat>): seq<Frame>
    requires counts != [] ==> packet != [] && |counts| <= FrameCount(|packet|) && Buildable(|packet|, |counts| - 1)
  {
    if counts == [] then []
    else
      var k := |counts| - 1;
      SentCopies(packet, counts[..k]) + Repeated(FrameAt(packet, k), counts[k])
  }

  lemma SentCopiesMore(packet: bytes, counts: seq<nat>, n: nat, before: seq<Frame>)
    requires packet != [] && |counts| < FrameCount(|packet|) && Buildable(|packet|, |counts|)
    ensures before + SentCopies(packet, counts + [n]) ==
      before + SentCopies(packet, counts) + Repeated(FrameAt(packet, |counts|), n)
  {
    hide FrameAt, FrameCount, Repeated;
    assert (counts + [n])[..|counts|] == counts;
    Regroup(before, SentCopies(packet, counts), Repeated(FrameAt(packet, |counts|), n));
  }

  lemma Regroup(a: seq<Frame>, b: seq<Frame>, c: seq<Frame>)
    ensures a + (b + c) == a + b + c
  {
  }

  function Total(counts: seq<nat>): nat {
    if counts == [] then 0 else Total(counts[..|counts| - 1]) + counts[|counts| - 1]
  }

  lemma TotalMore(counts: seq<nat>, n: nat)
    ensures Total(counts + [n]) == Total(counts) + n && Total([]) == 0
  {
    assert (counts + [n])[..|counts|] == counts;
  }

  /** What it takes to send the frames from the `k`-th on: each has fewer refusals than retries among its
      reads, all of them tolerated, ends in its acknowledgement, and there are writes for all of it. */
  ghost predicate Sendable(packet: bytes, k: nat, inbound: Reads, retries: nat, credits: nat)
    requires packet != [] && k <= FrameCount(|packet|)
    decreases FrameCount(|packet|) - k
  {
    k == FrameCount(|packet|)
    || (Buildable(|packet|, k)
        && exists n: nat, mark: nat ::
             && FrameSent(inbound, retries, NumberOf(|packet|, k), n, mark) && n <= credits
             && Sendable(packet, k + 1, inbound[mark + 1..], retries, credits - n))
  }

  lemma SendableStep(packet: bytes, k: nat, inbound: Reads, retries: nat, credits: nat, n: nat, mark: nat)
    requires packet != [] && k < FrameCount(|packet|) && Buildable(|packet|, k) && n <= credits
    requires FrameSent(inbound, retries, NumberOf(|packet|, k), n, mark)
    ensures mark < |inbound|
    ensures Sendable(packet, k, inbound, retries, credits)
       <==> Sendable(packet, k + 1, inbound[mark + 1..], retries, credits - n)
  {
    hide FrameSent, FrameCount;
    MarkInside(inbound, retries, NumberOf(|packet|, k), n, mark);
    if Sendable(packet, k, inbound, retries, credits) {
      var p: nat, m: nat :|
        && FrameSent(inbound, retries, NumberOf(|packet|, k), p, m) && p <= credits
        && (m < |inbound| ==> Sendable(packet, k + 1, inbound[m + 1..], retries, credits - p));
      SentUnique(inbound, retries, NumberOf(|packet|, k), n, mark, p, m);
    }
  }

  lemma NotSendable(packet: bytes, k: nat, inbound: Reads, retries: nat, credits: nat, n: nat, mark: nat,
                    left: Reads, e: FrameError)
    requires packet != [] && k < FrameCount(|packet|)
    requires Buildable(|packet|, k) ==> FrameFailed(inbound, credits, retries, NumberOf(|packet|, k), n, mark, left, e)
    ensures !Sendable(packet, k, inbound, retries, credits)
  {
    hide FrameSent, FrameFailed, FrameCount;
    if Sendable(packet, k, inbound, retries, credits) {
      var p: nat, m: nat :| FrameSent(inbound, retries, NumberOf(|packet|, k), p, m) && p <= credits;
      FailedNotSent(inbound, credits, retries, NumberOf(|packet|, k), n, mark, left, e, p, m);
    }
  }

  /** Why sending raised at the `k`-th frame, with these reads and writes left for it, having written it as
      often as `written` says: there is no such frame, or the retry loop around it raised. */
  ghost predicate SendFailed(packet: bytes, k: nat, inbound: Reads, credits: nat, retries: nat,
                             written: seq<Frame>, left: Reads, e: FrameError) {
    if packet == [] || k >= FrameCount(|packet|) || !Buildable(|packet|, k)
    then written == [] && e == ArgumentError && left == inbound
    else
      && written == Repeated(FrameAt(packet, k), |written|)
      && exists mark: nat :: FrameFailed(inbound, credits, retries, NumberOf(|packet|, k), |written|, mark, left, e)
  }

  /** The most writes `n` frames can take. */
  function Budget(retries: nat, n: nat): nat {
    retries * n
  }

  class FrameLink {
    const port: FramePort
    const packetCapacity: nat
    const retryCount: nat
    var pendingRxFrame: Option<Frame>

    constructor (port: FramePort, packetCapacity: nat, retryCount: nat)
      ensures this.port == port && this.packetCapacity == packetCapacity && this.retryCount == retryCount
      ensures pendingRxFrame == None
    {
      this.port, this.packetCapacity, this.retryCount := port, packetCapacity, retryCount;
      pendingRxFrame := None;
    }

    /** `_wait_flow_control`. Every frame read before the answer is unrelated to it; the first of them
        that carries data is kept. `seen` is what was read. */
    method WaitFlowControl(sequence: byte) returns (r: Result<bool, FrameError>, ghost seen: seq<Frame>)
      modifies this, port
      ensures port.outbound == old(port.outbound) && port.credits == old(port.credits)
      ensures |seen| <= |old(port.inbound)| && AreReads(old(port.inbound)[..|seen|], seen)
      ensures pendingRxFrame == Kept(old(pendingRxFrame), seen)
      ensures r.Ok? ==> WaitAnswered(old(port.inbound), seen, port.inbound, sequence, r.value)
      ensures r.Err? ==> WaitFailed(old(port.inbound), seen, port.inbound, sequence, r.error)
    {
      hide Judge;
      seen := [];
      while true
        invariant port.outbound == old(port.outbound) && port.credits == old(port.credits)
        invariant |seen| <= |old(port.inbound)| && port.inbound == old(port.inbound)[|seen|..]
        invariant AreReads(old(port.inbound)[..|seen|], seen)
        invariant pendingRxFrame == Kept(old(pendingRxFrame), seen)
        invariant forall i :: 0 <= i < |seen| ==> Judge(seen[i], sequence) == Unrelated
        decreases |port.inbound|
      {
        if port.inbound == [] {
          return Err(TimeoutError), seen;
        }
        ghost var before := seen;
        var read := port.ReadFrame();
        if read.Err? {
          return Err(read.error), seen;
        }
        var frame := read.value;
        seen := seen + [frame];
        assert seen[..|before|] == before;
        JudgeCases(frame, sequence);
        if frame.kind != Ack && frame.kind != Nack {
          if pendingRxFrame.None? {
            pendingRxFrame := Some(frame);
          }
          continue;
        }
        var answered := Sequence(frame);
        if answered.Err? {
          return Err(ArgumentError), seen;
        }
        if answered.value != sequence {
          continue;
        }
        return Ok(frame.kind == Ack), seen;
      }
    }

    /** `send_packet`. `counts` are the writes for the frames that were sent, `ends` where the reads for each
        of them end, `written` the writes for the frame it raised at. It returns normally if and only if the
        frames are sendable with the reads and writes there are. */
    method SendPacket(packet: bytes)
      returns (r: Result<(), FrameError>, ghost counts: seq<nat>, ghost ends: seq<nat>, ghost written: seq<Frame>)
      modifies this, port
      ensures SendOutcome(packet, retryCount, old(port.inbound), old(port.credits), old(port.outbound),
                          r, counts, ends, written, port.inbound, port.credits, port.outbound)
      ensures r.Ok? <==> packet != [] && Sendable(packet, 0, old(port.inbound), retryCount, old(port.credits))
      ensures packet == [] || |packet| > MAX_FRAGMENTED_SIZE || retryCount == 0 ==> r.Err?
      ensures |port.outbound| <=
        |old(port.outbound)| + Budget(retryCount, if packet == [] then 0 else FrameCount(|packet|))
    {
      hide FrameCount, Budget, FramesSent, SendFailed, Sendable, SentCopies, Total;
      counts, ends, written := [], [], [];
      OneMore(retryCount, 0, 0);
      var created := FrameFragmenter.Create(packet);
      if created.Err? {
        NothingSent(packet, retryCount, port.inbound, port.credits, port.outbound);
        return Err(created.error), counts, ends, written;
      }
      r, counts, ends, written := SendFrames(created.value);
    }

    /** The send loop. */
    method SendFrames(fragmenter: FrameFragmenter)
      returns (r: Result<(), FrameError>, ghost counts: seq<nat>, ghost ends: seq<nat>, ghost written: seq<Frame>)
      requires fragmenter.Valid() && fragmenter.Emitted() == 0
      modifies this, port, fragmenter
      ensures SendOutcome(fragmenter.packet, retryCount, old(port.inbound), old(port.credits), old(port.outbound),
                          r, counts, ends, written, port.inbound, port.credits, port.outbound)
      ensures r.Ok? <==> Sendable(fragmenter.packet, 0, old(port.inbound), retryCount, old(port.credits))
      ensures |fragmenter.packet| > MAX_FRAGMENTED_SIZE || retryCount == 0 ==> r.Err?
      ensures |port.outbound| <= |old(port.outbound)| + Budget(retryCount, FrameCount(|fragmenter.packet|))
    {
      hide FrameCount, FrameAt, Budget, FrameSent, FrameFailed, FramesSent, SendFailed, Sendable, SentCopies;
      hide Total, Repeated;
      ghost var packet, inbound, credits, outbound := fragmenter.packet, port.inbound, port.credits, port.outbound;
      counts, ends, written := [], [], [];
      FrameCountBounds(|packet|);
      OneMore(retryCount, 0, 0);
      NothingSent(packet, retryCount, inbound, credits, outbound);
      while !fragmenter.isFinished
        invariant fragmenter.Valid() && written == [] && |counts| == |ends| == fragmenter.Emitted()
        invariant counts != [] ==> Buildable(|packet|, |counts| - 1) && retryCount > 0
        invariant |port.outbound| <= |outbound| + Budget(retryCount, |counts|)
        invariant FramesSent(packet, retryCount, inbound, counts, ends)
        invariant StartAt(ends, |ends|) <= |inbound| && port.inbound == inbound[StartAt(ends, |ends|)..]
        invariant Total(counts) + port.credits == credits && port.outbound == outbound + SentCopies(packet, counts)
        invariant Sendable(packet, 0, inbound, retryCount, credits)
             <==> Sendable(packet, |counts|, port.inbound, retryCount, port.credits)
        decreases FrameCount(|packet|) - fragmenter.Emitted()
      {
        OneMore(retryCount, |counts|, FrameCount(|packet|));
        OneMore(retryCount, |counts| + 1, FrameCount(|packet|));
        ghost var k, line, had := |counts|, port.inbound, port.credits;
        var sent, n, mark := SendNext(fragmenter);
        if sent.Err? {
          written := if Buildable(|packet|, k) then Repeated(FrameAt(packet, k), n) else [];
          FailedHere(packet, k, line, had, retryCount, n, mark, port.inbound, sent.error);
          NotSendable(packet, k, line, retryCount, had, n, mark, port.inbound, sent.error);
          NothingMore(outbound, SentCopies(packet, counts));
          return sent, counts, ends, written;
        }
        FramesSentMore(packet, retryCount, inbound, counts, ends, n, mark);
        SendableStep(packet, k, line, retryCount, had, n, mark);
        SentCopiesMore(packet, counts, n, outbound);
        TotalMore(counts, n);
        counts, ends := counts + [n], ends + [StartAt(ends, |ends|) + mark + 1];
      }
      NothingMore(outbound, SentCopies(packet, counts));
      AllSent(packet, port.inbound, retryCount, port.credits);
      r := Ok(());
    }

    /** One turn of the send loop: the next frame, until it is acknowledged. */
    method SendNext(fragmenter: FrameFragmenter) returns (r: Result<(), FrameError>, n: nat, ghost mark: nat)
      requires fragmenter.Valid() && !fragmenter.isFinished
      modifies this, port, fragmenter
      ensures fragmenter.Valid()
      ensures n <= old(port.credits) && port.credits == old(port.credits) - n && n <= retryCount
      ensures var k := old(fragmenter.Emitted());
        && k < FrameCount(|fragmenter.packet|)
        && if !Buildable(|fragmenter.packet|, k)
           then
             && r == Err(ArgumentError) && n == 0
             && port.inbound == old(port.inbound) && port.outbound == old(port.outbound)
           else
             && port.outbound == old(port.outbound) + Repeated(FrameAt(fragmenter.packet, k), n)
             && (r.Ok? ==>
                   && fragmenter.Emitted() == k + 1
                   && FrameSent(old(port.inbound), retryCount, NumberOf(|fragmenter.packet|, k), n, mark)
                   && mark < |old(port.inbound)| && port.inbound == old(port.inbound)[mark + 1..])
             && (r.Err? ==>
                   FrameFailed(old(port.inbound), old(port.credits), retryCount, NumberOf(|fragmenter.packet|, k),
                               n, mark, port.inbound, r.error))
    {
      hide FrameCount, FrameAt, Sequence, FrameFailed, FrameSent;
      if Buildable(|fragmenter.packet|, fragmenter.Emitted()) {
        SequenceOfFrame(fragmenter.packet, fragmenter.Emitted());
      }
      var next := fragmenter.NextFrame();
      if next.Err? {
        return Err(next.error), 0, 0;
      }
      var sequence := Sequence(next.value);
      if sequence.Err? {
        assert false;
      }
      r, n, mark := SendFrame(next.value, sequence.value);
    }

    /** The retry loop around one frame; `mark` is where the acknowledgement was read. */
    method SendFrame(frame: Frame, sequence: byte) returns (r: Result<(), FrameError>, n: nat, ghost mark: nat)
      modifies this, port
      ensures n <= retryCount && port.outbound == old(port.outbound) + Repeated(frame, n)
      ensures n <= old(port.credits) && port.credits == old(port.credits) - n
      ensures r.Ok? ==>
        && FrameSent(old(port.inbound), retryCount, sequence, n, mark)
        && mark < |old(port.inbound)| && port.inbound == old(port.inbound)[mark + 1..]
      ensures r.Err? ==>
        FrameFailed(old(port.inbound), old(port.credits), retryCount, sequence, n, mark, port.inbound, r.error)
    {
      hide Refusals, WaitFailed, AllTolerated, WaitAnswered, Acks, Repeated, FrameFailed, Judge;
      n, mark := 0, 0;
      NothingRefused(sequence);
      RepeatedMore(frame, 0);
      ghost var inbound := port.inbound;
      while n < retryCount
        invariant n <= retryCount && port.outbound == old(port.outbound) + Repeated(frame, n)
        invariant n <= old(port.credits) && port.credits == old(port.credits) - n
        invariant mark <= |inbound| && port.inbound == inbound[mark..]
        invariant AllTolerated(inbound[..mark], sequence) && Refusals(inbound[..mark], sequence) == n
      {
        var answer, written, seen := WriteAndWait(frame, sequence);
        if !written {
          FailedToWrite(inbound, old(port.credits), retryCount, sequence, n, mark);
          return Err(IoError), n, mark;
        }
        n := n + 1;
        RepeatedMore(frame, n - 1);
        if answer.Err? {
          FailedToWait(inbound, old(port.credits), retryCount, sequence, n, mark, seen, port.inbound, answer.error);
          return Err(answer.error), n, mark;
        }
        AnswerTaken(inbound, mark, seen, port.inbound, sequence, answer.value);
        mark := mark + |seen|;
        if answer.value {
          return Ok(()), n, mark - 1;
        }
      }
      FailedToWrite(inbound, old(port.credits), retryCount, sequence, n, mark);
      r := Err(IoError);
    }

    /** One write, and the wait for its answer. */
    method WriteAndWait(frame: Frame, sequence: byte)
      returns (r: Result<bool, FrameError>, written: bool, ghost seen: seq<Frame>)
      modifies this, port
      ensures written == (old(port.credits) > 0)
      ensures !written ==>
        && r == Err(IoError) && port.credits == 0
        && port.inbound == old(port.inbound) && port.outbound == old(port.outbound)
      ensures written ==> port.outbound == old(port.outbound) + [frame] && port.credits == old(port.credits) - 1
      ensures written && r.Ok? ==> WaitAnswered(old(port.inbound), seen, port.inbound, sequence, r.value)
      ensures written && r.Err? ==> WaitFailed(old(port.inbound), seen, port.inbound, sequence, r.error)
    {
      hide Judge, Kept, Acks;
      seen := [];
      var wrote := port.WriteFrame(frame);
      written := wrote.Ok?;
      if !written {
        return Err(IoError), false, seen;
      }
      r, seen := WaitFlowControl(sequence);
    }

    /** `_load_next_rx_frame`: a kept frame comes first. */
    method LoadNextRxFrame() returns (r: Result<Frame, FrameError>)
      modifies this, port
      ensures port.outbound == old(port.outbound) && port.credits == old(port.credits) && pendingRxFrame == None
      ensures old(pendingRxFrame).Some? ==> r == Ok(old(pendingRxFrame).value) && port.inbound == old(port.inbound)
      ensures old(pendingRxFrame).None? && old(port.inbound) == [] ==> r == Err(TimeoutError) && port.inbound == []
      ensures old(pendingRxFrame).None? && old(port.inbound) != [] ==>
        r == old(port.inbound)[0] && port.inbound == old(port.inbound)[1..]
    {
      if pendingRxFrame.Some? {
        r, pendingRxFrame := Ok(pendingRxFrame.value), None;
        return;
      }
      r := port.ReadFrame();
    }

    /** The results the receiver will see: the kept frame, then the port's. */
    ghost function Incoming(): Reads
      reads this, port
    {
      if pendingRxFrame.Some? then [Ok(pendingRxFrame.value)] + port.inbound else port.inbound
    }

    /** The body of the receive loop, for one frame. */
    method HandleFrame(assembler: FrameAssembler, frame: Frame) returns (r: Result<(), FrameError>)
      requires !assembler.isFinished
      modifies assembler, port
      ensures port.inbound == old(port.inbound)
      ensures r.Ok? ==>
        var x := React(old(assembler.View()), frame);
        && x.failure.None? && assembler.View() == x.next && port.outbound == old(port.outbound) + Reply(x)
        && old(port.credits) >= |Reply(x)| && port.credits == old(port.credits) - |Reply(x)|
      ensures r.Err? ==>
        var x := React(old(assembler.View()), frame);
        if x.reply.Some? && old(port.credits) == 0 then r.error == IoError else x.failure == Some(r.error)
    {
      hide Accept, Sequence;
      if frame.kind == Ack || frame.kind == Nack {
        return Ok(());
      }
      var sequence := Sequence(frame);
      if sequence.Err? {
        return Err(ArgumentError);
      }
      if frame.kind == Consecutive && sequence.value < assembler.expectedSequence {
        r := port.WriteFrame(AckFor(sequence.value));
        return;
      }
      if frame.kind == First && assembler.expectedSequence > 0 && sequence.value == 0 {
        r := port.WriteFrame(AckFor(sequence.value));
        return;
      }
      var processed := assembler.Process(frame);
      if processed.Err? {
        var refused := port.WriteFrame(NackFor(sequence.value));
        return if refused.Err? then refused else processed;
      }
      r := port.WriteFrame(AckFor(sequence.value));
    }

    /** `receive_packet`. `frames` is what was read. A normal return follows the receiver's rules to the
        letter: what was sent back and the packet returned are the ones of `ReactAll`; if it raises, it
        has still followed them up to the frame that made it raise. */
    method ReceivePacket() returns (r: Result<bytes, FrameError>, ghost frames: seq<Frame>)
      modifies this, port
      ensures |frames| <= |old(Incoming())| && AreReads(old(Incoming())[..|frames|], frames)
      ensures r.Ok? ==>
        && ReactAll(Fresh(packetCapacity), frames).Some?
        && var (sent, s) := ReactAll(Fresh(packetCapacity), frames).value;
           s.finished && r.value == s.buffer && port.outbound == old(port.outbound) + sent
      ensures r.Ok? ==> Incoming() == old(Incoming())[|frames|..]
      ensures r.Err? ==>
        || (packetCapacity == 0 && r.error == ArgumentError)
        || (&& ReactAll(Fresh(packetCapacity), frames).Some?
            && !ReactAll(Fresh(packetCapacity), frames).value.1.finished
            && if |frames| == |old(Incoming())| then r.error == TimeoutError
               else old(Incoming())[|frames|] == Err(r.error))
        || (frames != [] && RaisesOnLast(Fresh(packetCapacity), frames, old(port.credits), r.error))
    {
      hide React, ReactAll;
      if packetCapacity == 0 {
        return Err(ArgumentError), [];
      }
      var assembler := new FrameAssembler(packetCapacity);
      ghost var sent: seq<Frame> := [];
      frames := [];
      ReactNothing(Fresh(packetCapacity));
      while !assembler.isFinished
        invariant fresh(assembler) && assembler.packetCapacity == packetCapacity
        invariant |frames| <= |old(Incoming())| && Incoming() == old(Incoming())[|frames|..]
        invariant AreReads(old(Incoming())[..|frames|], frames)
        invariant ReactAll(Fresh(packetCapacity), frames) == Some((sent, assembler.View()))
        invariant port.outbound == old(port.outbound) + sent
        invariant |sent| <= old(port.credits) && port.credits == old(port.credits) - |sent|
        decreases |Incoming()|
      {
        var loaded := LoadNextRxFrame();
        if loaded.Err? {
          return Err(loaded.error), frames;
        }
        var frame := loaded.value;
        ghost var before, s := frames, assembler.View();
        frames := frames + [frame];
        assert frames[..|before|] == before;
        ReactAllSnoc(Fresh(packetCapacity), before, frame);
        var handled := HandleFrame(assembler, frame);
        if handled.Err? {
          return Err(handled.error), frames;
        }
        sent := sent + Reply(React(s, frame));
      }
      r := Ok(assembler.buffer);
    }
  }

  /** The receiver's run is fine up to the last frame, and that one makes it raise: its reply was one write
      too many, or the frame was refused. */
  predicate RaisesOnLast(s: Assembly, frames: seq<Frame>, credits: nat, e: FrameError)
    requires frames != []
  {
    && ReactAll(s, frames[..|frames| - 1]).Some?
    && var (sent, t) := ReactAll(s, frames[..|frames| - 1]).value;
    && !t.finished
    && var x := React(t, frames[|frames| - 1]);
       if x.reply.Some? && |sent| == credits then e == IoError else x.failure == Some(e)
  }

  /** What `send_packet` comes to: the frames before were sent with the reads up to `StartAt(ends, |ends|)`,
      and if it raises, it does so at the next frame, because of the reads and writes that were left. */
  ghost predicate SendOutcome(packet: bytes, retries: nat, inbound: Reads, credits: nat, outbound: seq<Frame>,
                              r: Result<(), FrameError>, counts: seq<nat>, ends: seq<nat>, written: seq<Frame>,
                              left: Reads, creditsLeft: nat, after: seq<Frame>) {
    && FramesSent(packet, retries, inbound, counts, ends)
    && (counts != [] ==> packet != [] && |counts| <= FrameCount(|packet|) && Buildable(|packet|, |counts| - 1))
    && after == outbound + SentCopies(packet, counts) + written
    && Total(counts) + |written| + creditsLeft == credits
    && |ends| == |counts| && StartAt(ends, |ends|) <= |inbound|
    && var rest := inbound[StartAt(ends, |ends|)..];
       match r
       case Ok(_) => packet != [] && |counts| == FrameCount(|packet|) && written == [] && left == rest
       case Err(e) =>
         SendFailed(packet, |counts|, rest, credits - Total(counts), retries, written, left, e)
  }

  lemma NothingSent(packet: bytes, retries: nat, inbound: Reads, credits: nat, outbound: seq<Frame>)
    ensures FramesSent(packet, retries, inbound, [], []) && Total([]) == 0 && SentCopies(packet, []) == []
    ensures outbound + SentCopies(packet, []) == outbound
    ensures packet == [] ==>
      SendOutcome(packet, retries, inbound, credits, outbound, Err(ArgumentError), [], [], [],
                  inbound, credits, outbound)
  {
    assert inbound[0..] == inbound;
    assert outbound + [] == outbound && outbound + [] + [] == outbound;
  }

  lemma NothingMore(outbound: seq<Frame>, copies: seq<Frame>)
    ensures outbound + copies + [] == outbound + copies
  {
  }

  lemma AllSent(packet: bytes, inbound: Reads, retries: nat, credits: nat)
    requires packet != []
    ensures Sendable(packet, FrameCount(|packet|), inbound, retries, credits)
  {
  }

  lemma FailedHere(packet: bytes, k: nat, inbound: Reads, credits: nat, retries: nat, n: nat, mark: nat,
                   left: Reads, e: FrameError)
    requires packet != [] && k < FrameCount(|packet|)
    requires !Buildable(|packet|, k) ==> n == 0 && e == ArgumentError && left == inbound
    requires Buildable(|packet|, k) ==> FrameFailed(inbound, credits, retries, NumberOf(|packet|, k), n, mark, left, e)
    ensures SendFailed(packet, k, inbound, credits, retries,
                       if Buildable(|packet|, k) then Repeated(FrameAt(packet, k), n) else [], left, e)
  {
    hide FrameFailed, FrameCount, FrameAt, Repeated;
  }

  lemma NothingRefused(sequence: byte)
    ensures AllTolerated([], sequence) && Refusals([], sequence) == 0
  {
  }

  lemma RepeatedMore(f: Frame, n: nat)
    ensures Repeated(f, n + 1) == Repeated(f, n) + [f] && Repeated(f, 0) == []
  {
  }

  lemma FailedToWrite(inbound: Reads, credits: nat, retries: nat, sequence: byte, n: nat, mark: nat)
    requires n <= credits && n <= retries && (n == retries || n == credits) && mark <= |inbound|
    requires AllTolerated(inbound[..mark], sequence) && Refusals(inbound[..mark], sequence) == n
    ensures FrameFailed(inbound, credits, retries, sequence, n, mark, inbound[mark..], IoError)
  {
    hide AllTolerated, Refusals, WaitFailed;
  }

  lemma FailedToWait(inbound: Reads, credits: nat, retries: nat, sequence: byte, n: nat, mark: nat,
                     seen: seq<Frame>, left: Reads, e: FrameError)
    requires 1 <= n <= credits && n <= retries && mark <= |inbound|
    requires AllTolerated(inbound[..mark], sequence) && Refusals(inbound[..mark], sequence) == n - 1
    requires WaitFailed(inbound[mark..], seen, left, sequence, e)
    ensures FrameFailed(inbound, credits, retries, sequence, n, mark, left, e)
  {
    hide AllTolerated, Refusals, WaitFailed;
  }

  lemma AnswerTaken(inbound: Reads, mark: nat, seen: seq<Frame>,
                    left: Reads, sequence: byte, isAck: bool)
    requires mark <= |inbound| && WaitAnswered(inbound[mark..], seen, left, sequence, isAck)
    requires AllTolerated(inbound[..mark], sequence)
    ensures var end := mark + |seen|;
      && 1 <= |seen| && end <= |inbound| && left == inbound[end..]
      && (isAck ==>
            && Acks(inbound[end - 1], sequence)
            && AllTolerated(inbound[..end - 1], sequence)
            && Refusals(inbound[..end - 1], sequence) == Refusals(inbound[..mark], sequence))
      && (!isAck ==>
            && AllTolerated(inbound[..end], sequence)
            && Refusals(inbound[..end], sequence) == Refusals(inbound[..mark], sequence) + 1)
  {
    hide Judge, AllTolerated, Refusals, AreReads, Acks;
    if isAck {
      AnsweredAt(inbound, mark, seen, sequence);
    } else {
      RefusedOnce(inbound, mark, seen, sequence);
    }
  }

  lemma AnsweredAt(inbound: Reads, mark: nat, seen: seq<Frame>, sequence: byte)
    requires mark <= |inbound| && seen != [] && |seen| <= |inbound[mark..]| && AreReads(inbound[mark..][..|seen|], seen)
    requires AllTolerated(inbound[..mark], sequence)
    requires forall i :: 0 <= i < |seen| - 1 ==> Judge(seen[i], sequence) == Unrelated
    requires Judge(seen[|seen| - 1], sequence) == Acknowledged
    ensures Acks(inbound[mark + |seen| - 1], sequence)
    ensures AllTolerated(inbound[..mark + |seen| - 1], sequence)
    ensures Refusals(inbound[..mark + |seen| - 1], sequence) == Refusals(inbound[..mark], sequence)
  {
    hide Judge, AllTolerated, Refusals;
    var rest, n := inbound[mark..], |seen| - 1;
    assert rest[..|seen|][n] == inbound[mark + n];
    assert AreReads(inbound[mark..mark + n], seen[..n]) by {
      assert forall i :: 0 <= i < n ==> rest[..|seen|][i] == inbound[mark..mark + n][i];
    }
    assert inbound[..mark] + inbound[mark..mark + n] == inbound[..mark + n];
    ReadsAre(inbound[..mark], inbound[mark..mark + n], seen[..n]);
    OneRefusal(inbound[..mark], seen[..n], sequence);
  }

  lemma RefusedOnce(inbound: Reads, mark: nat, seen: seq<Frame>, sequence: byte)
    requires mark <= |inbound| && seen != [] && |seen| <= |inbound[mark..]| && AreReads(inbound[mark..][..|seen|], seen)
    requires AllTolerated(inbound[..mark], sequence)
    requires forall i :: 0 <= i < |seen| - 1 ==> Judge(seen[i], sequence) == Unrelated
    requires Judge(seen[|seen| - 1], sequence) == Refused
    ensures AllTolerated(inbound[..mark + |seen|], sequence)
    ensures Refusals(inbound[..mark + |seen|], sequence) == Refusals(inbound[..mark], sequence) + 1
  {
    hide Judge, AllTolerated, Refusals;
    assert inbound[mark..][..|seen|] == inbound[mark..mark + |seen|];
    assert inbound[..mark] + inbound[mark..mark + |seen|] == inbound[..mark + |seen|];
    ReadsAre(inbound[..mark], inbound[mark..mark + |seen|], seen);
    OneRefusal(inbound[..mark], seen, sequence);
  }

  lemma ReactNothing(s: Assembly)
    ensures ReactAll(s, []) == Some(([], s))
  {
  }

  lemma JudgeCases(f: Frame, sequence: byte)
    ensures !IsControl(f) ==> Judge(f, sequence) == Unrelated
    ensures IsControl(f) && Sequence(f).Err? ==> Judge(f, sequence) == Malformed
    ensures IsControl(f) && Sequence(f).Ok? && Sequence(f).value != sequence ==> Judge(f, sequence) == Unrelated
    ensures IsControl(f) && Sequence(f) == Ok(sequence) ==>
      Judge(f, sequence) == if f.kind == Ack then Acknowledged else Refused
  {
  }

  lemma OneMore(retries: nat, k: nat, n: nat)
    ensures k <= n ==> Budget(retries, k) <= Budget(retries, n)
    ensures Budget(retries, k + 1) == Budget(retries, k) + retries
    ensures Budget(retries, 0) == 0
  {
    if k <= n {
      assert retries * (n - k) >= 0;
      assert retries * n == retries * k + retries * (n - k);
    }
  }
}
