/** The two ends of one packet transfer over a channel that loses, duplicates and reorders frames in
    both directions (pc/src/frame/link.py; device/src/factory_session.c, `send_current_packet` and
    `receive_one_packet`).

    Every event is one step of one end or of the channel. The receiver's step is `Link.React`, the
    sender's reading of an answer is `Link.Judge`; the methods of `Link.FrameLink` are proved to
    follow the same two functions. Without `retryOnTimeout` the sender is the host's, which raises after a
    timeout; with it, it is what the device's would be with a transmit buffer of its own: it sends the
    frame again. What the device does from its shared buffer is in module SharedBuffer. */
module StopAndWait {
  import opened Bytes
  import opened Frames
  import opened Fragmenter
  import opened Assembler
  import opened Link
  import DeviceUart
  import DeviceReactions

  datatype Config = Config(packet: bytes, capacity: nat, retries: nat, retryOnTimeout: bool)

  predicate ValidConfig(c: Config) {
    1 <= |c.packet| <= MAX_FRAGMENTED_SIZE && |c.packet| <= c.capacity
  }

  datatype Sender = Ready | Waiting | Done | GaveUp
  datatype Receiver = Receiving | Returned | Aborted

  /** The sender works on frame `k`, which it has written `tries` times. */
  datatype State = State(
    k: nat, tries: nat, sender: Sender,
    rx: Assembly, receiver: Receiver,
    data: multiset<Frame>, control: multiset<Frame>)

  datatype Event =
    | Transmit | HearControl(f: Frame) | SenderTimeout | GiveUp | SenderAbort
    | DeliverData(f: Frame) | ReceiverAbort
    | DropData(f: Frame) | DuplicateData(f: Frame) | DropControl(f: Frame) | DuplicateControl(f: Frame)

  function Count(c: Config): nat
    requires ValidConfig(c)
  {
    FrameCount(|c.packet|)
  }

  function Initial(c: Config): State {
    State(0, 0, Ready, Fresh(c.capacity), Receiving, multiset{}, multiset{})
  }

  /** The state after one event, if the event can happen. */
  function Next(c: Config, s: State, e: Event): Option<State>
    requires ValidConfig(c)
  {
    match e
    case Transmit =>
      if s.sender == Ready && s.tries < c.retries && s.k < Count(c)
      then Some(s.(sender := Waiting, tries := s.tries + 1, data := s.data + multiset{Plan(c.packet)[s.k]}))
      else None
    case GiveUp =>
      if s.sender == Ready && s.tries >= c.retries then Some(s.(sender := GaveUp)) else None
    case HearControl(f) =>
      if s.sender == Waiting && f in s.control && s.k < Count(c)
      then Some(Hear(c, s.(control := s.control - multiset{f}), f))
      else None
    case SenderTimeout =>
      if s.sender == Waiting then Some(s.(sender := if c.retryOnTimeout then Ready else GaveUp)) else None
    case SenderAbort =>
      if s.sender == Ready || s.sender == Waiting then Some(s.(sender := GaveUp)) else None
    case DeliverData(f) =>
      if s.receiver == Receiving && f in s.data
      then Some(Receive(s.(data := s.data - multiset{f}), React(s.rx, f)))
      else None
    case ReceiverAbort =>
      if s.receiver == Receiving then Some(s.(receiver := Aborted)) else None
    case DropData(f) => if f in s.data then Some(s.(data := s.data - multiset{f})) else None
    case DuplicateData(f) => if f in s.data then Some(s.(data := s.data + multiset{f})) else None
    case DropControl(f) => if f in s.control then Some(s.(control := s.control - multiset{f})) else None
    case DuplicateControl(f) => if f in s.control then Some(s.(control := s.control + multiset{f})) else None
  }

  function Hear(c: Config, s: State, f: Frame): State
    requires ValidConfig(c) && s.k < Count(c)
  {
    match Judge(f, SequenceAt(c.packet, s.k))
    case Unrelated => s
    case Acknowledged => s.(k := s.k + 1, tries := 0, sender := if s.k + 1 == Count(c) then Done else Ready)
    case Refused => s.(sender := Ready)
    case Malformed => s.(sender := GaveUp)
  }

  function Receive(s: State, r: Reaction): State {
    s.(rx := r.next,
       control := if r.reply.Some? then s.control + multiset{r.reply.value} else s.control,
       receiver := if r.failure.Some? then Aborted else if r.next.finished then Returned else Receiving)
  }

  /** The state after a sequence of events, if each of them can happen when its turn comes. */
  function Run(c: Config, s: State, events: seq<Event>): Option<State>
    requires ValidConfig(c)
    decreases events
  {
    if events == [] then Some(s)
    else match Next(c, s, events[0])
      case None => None
      case Some(t) => Run(c, t, events[1..])
  }

  // ---------------------------------------------------------------------------
  // The invariant

  /** How many frames have been written at least once. */
  function Written(s: State): nat {
    if s.tries > 0 then s.k + 1 else s.k
  }

  /** How many frames the receiver has taken. */
  function Taken(c: Config, s: State): nat
    requires ValidConfig(c)
  {
    if s.rx.finished then Count(c) else s.rx.expected
  }

  /** The bytes of the packet that its first `r` frames carry. */
  function CarriedBy(c: Config, r: nat): bytes {
    c.packet[..Min(ChunkStart(r), |c.packet|)]
  }

  ghost predicate Planned(c: Config, f: Frame, n: nat)
    requires ValidConfig(c) && n <= Count(c)
  {
    exists j :: 0 <= j < n && Plan(c.packet)[j] == f
  }

  ghost predicate Confirms(c: Config, f: Frame, n: nat)
    requires ValidConfig(c) && n <= Count(c)
  {
    exists j: nat :: j < n && f == AckFor(SequenceAt(c.packet, j))
  }

  ghost predicate AllPlanned(c: Config, data: multiset<Frame>, n: nat)
    requires ValidConfig(c) && n <= Count(c)
  {
    forall f :: f in data ==> Planned(c, f, n)
  }

  ghost predicate AllConfirm(c: Config, control: multiset<Frame>, n: nat)
    requires ValidConfig(c) && n <= Count(c)
  {
    forall f :: f in control ==> Confirms(c, f, n)
  }

  /** The receiver's assembly is the one the first `r` frames of the plan produce. */
  predicate HoldsPrefix(c: Config, rx: Assembly, r: nat)
    requires ValidConfig(c)
  {
    r <= Count(c) && AcceptAll(Fresh(c.capacity), Plan(c.packet)[..r]) == Some(rx)
  }

  /** What every reachable state satisfies: the sender is somewhere in the plan; the receiver has
      taken exactly the frames before the sender's current one, or that one too; it holds their
      bytes; only written frames are on their way to it, and only acknowledgements of frames it has
      taken are on their way back. */
  ghost predicate Inv(c: Config, s: State)
    requires ValidConfig(c)
  {
    && s.k <= Count(c) && (s.sender == Done <==> s.k == Count(c)) && s.tries <= c.retries
    && (s.tries > 0 ==> s.k < Count(c)) && (s.sender == Waiting ==> s.tries > 0)
    && s.k <= Taken(c, s) <= Written(s) <= Count(c)
    && HoldsPrefix(c, s.rx, Taken(c, s))
    && (s.receiver == Returned <==> s.rx.finished)
    && AllPlanned(c, s.data, Written(s))
    && AllConfirm(c, s.control, Taken(c, s))
  }

  lemma InitialInv(c: Config)
    requires ValidConfig(c)
    ensures Inv(c, Initial(c))
  {
    hide Plan;
    assert Plan(c.packet)[..0] == [];
  }

  /** What the receiver does with a frame of the plan it may legitimately see: it acknowledges it, and
      takes it exactly if it is the next one. It never refuses. */
  lemma ReactToPlan(c: Config, rx: Assembly, r: nat, j: nat)
    requires ValidConfig(c) && HoldsPrefix(c, rx, r) && j <= r < Count(c)
    ensures var x := React(rx, Plan(c.packet)[j]);
      && x.reply == Some(AckFor(SequenceAt(c.packet, j))) && x.failure == None
      && (j < r ==> x.next == rx)
      && (j == r ==> HoldsPrefix(c, x.next, r + 1) && Taken(c, Initial(c).(rx := x.next)) == r + 1)
    ensures !rx.finished && rx.expected == r
  {
    hide Accept, AcceptAll, Plan, FrameCount;
    var frames := Plan(c.packet);
    PlanPrefixState(c.packet, c.capacity, r);
    PlanPrefixState(c.packet, c.capacity, r + 1);
    PlanSequence(c.packet, j);
    PlanKinds(c, j);
    if j == r {
      assert frames[..r + 1] == frames[..r] + [frames[r]];
      AcceptAllSnoc(Fresh(c.capacity), frames[..r], frames[r]);
    }
  }

  lemma PlanKinds(c: Config, j: nat)
    requires ValidConfig(c) && j < Count(c)
    ensures var kind := Plan(c.packet)[j].kind;
      if |c.packet| <= MAX_DATA_SIZE then kind == Single && Count(c) == 1
      else kind == if j == 0 then First else Consecutive
    ensures |c.packet| > MAX_DATA_SIZE ==> SequenceAt(c.packet, j) == j
  {
    FrameCountBounds(|c.packet|);
  }

  /** The sender's reading of an answer: an acknowledgement counts only if it names the current frame. */
  lemma JudgeConfirmation(c: Config, f: Frame, n: nat, k: nat)
    requires ValidConfig(c) && n <= Count(c) && k < Count(c) && Confirms(c, f, n)
    ensures var answer := Judge(f, SequenceAt(c.packet, k));
      answer == Unrelated || (answer == Acknowledged && k < n)
  {
    var j: nat :| j < n && f == AckFor(SequenceAt(c.packet, j));
    PlanSequence(c.packet, k);
  }

  /** Every step of either end and of the channel keeps the invariant. */
  lemma StepKeepsInv(c: Config, s: State, e: Event)
    requires ValidConfig(c) && Inv(c, s) && Next(c, s, e).Some?
    ensures Inv(c, Next(c, s, e).value)
  {
    hide Inv, Next;
    match e {
      case Transmit => TransmitKeepsInv(c, s);
      case HearControl(f) => HearKeepsInv(c, s, f);
      case DeliverData(f) => DeliverKeepsInv(c, s, f);
      case _ => OthersKeepInv(c, s, e);
    }
  }

  lemma OthersKeepInv(c: Config, s: State, e: Event)
    requires ValidConfig(c) && Inv(c, s) && Next(c, s, e).Some?
    requires !e.Transmit? && !e.HearControl? && !e.DeliverData?
    ensures Inv(c, Next(c, s, e).value)
  {
    hide Plan, Judge, React, FrameCount, HoldsPrefix, AllPlanned, AllConfirm, SequenceAt, ValidConfig, Next;
    var t := Next(c, s, e).value;
    OthersEffect(c, s, e);
    Fewer(c, s.data, t.data, Written(s), s.control, t.control, Taken(c, s));
  }

  /** What giving up, timing out, losing and duplicating change. */
  lemma OthersEffect(c: Config, s: State, e: Event)
    requires ValidConfig(c) && Next(c, s, e).Some?
    requires !e.Transmit? && !e.HearControl? && !e.DeliverData?
    ensures var t := Next(c, s, e).value;
      && t.k == s.k && t.tries == s.tries && t.rx == s.rx
      && (forall f :: f in t.data ==> f in s.data) && (forall f :: f in t.control ==> f in s.control)
      && (t.sender == s.sender || (s.sender in {Ready, Waiting} && t.sender in {Ready, GaveUp}))
      && (t.receiver == s.receiver || (s.receiver == Receiving && t.receiver == Aborted))
  {
    hide Plan, Judge, React, FrameCount, SequenceAt;
  }

  lemma Fewer(c: Config, data: multiset<Frame>, data': multiset<Frame>, n: nat,
              control: multiset<Frame>, control': multiset<Frame>, m: nat)
    requires ValidConfig(c) && n <= Count(c) && m <= Count(c)
    requires AllPlanned(c, data, n) && AllConfirm(c, control, m)
    ensures (forall f :: f in data' ==> f in data) ==> AllPlanned(c, data', n)
    ensures (forall f :: f in control' ==> f in control) ==> AllConfirm(c, control', m)
  {
    hide Planned, Confirms, FrameCount;
  }

  lemma TransmitKeepsInv(c: Config, s: State)
    requires ValidConfig(c) && Inv(c, s) && Next(c, s, Transmit).Some?
    ensures Inv(c, Next(c, s, Transmit).value)
  {
    hide Plan, FrameCount, HoldsPrefix, AllConfirm;
    MorePlanned(c, s.data, Written(s), s.k);
  }

  lemma MorePlanned(c: Config, data: multiset<Frame>, n: nat, k: nat)
    requires ValidConfig(c) && k < Count(c) && n <= k + 1 && AllPlanned(c, data, n)
    ensures AllPlanned(c, data + multiset{Plan(c.packet)[k]}, k + 1)
  {
    hide Plan, FrameCount;
    assert Planned(c, Plan(c.packet)[k], k + 1);
    forall f | f in data ensures Planned(c, f, k + 1) {
      var j :| 0 <= j < n && Plan(c.packet)[j] == f;
    }
  }

  lemma MoreConfirm(c: Config, control: multiset<Frame>, n: nat, j: nat, m: nat)
    requires ValidConfig(c) && n <= m <= Count(c) && j < m && AllConfirm(c, control, n)
    ensures AllConfirm(c, control + multiset{AckFor(SequenceAt(c.packet, j))}, m)
  {
    hide FrameCount, SequenceAt;
    var ack := AckFor(SequenceAt(c.packet, j));
    assert Confirms(c, ack, m);
    forall f | f in control ensures Confirms(c, f, m) {
      var i: nat :| i < n && f == AckFor(SequenceAt(c.packet, i));
    }
  }

  lemma HearKeepsInv(c: Config, s: State, f: Frame)
    requires ValidConfig(c) && Inv(c, s) && Next(c, s, HearControl(f)).Some?
    ensures Inv(c, Next(c, s, HearControl(f)).value)
  {
    hide Plan, Judge, FrameCount, HoldsPrefix, AllPlanned, AllConfirm;
    assert Confirms(c, f, Taken(c, s)) by {
      ConfirmsOne(c, s.control, Taken(c, s), f);
    }
    JudgeConfirmation(c, f, Taken(c, s), s.k);
    Fewer(c, s.data, s.data, Written(s), s.control, s.control - multiset{f}, Taken(c, s));
  }

  lemma ConfirmsOne(c: Config, control: multiset<Frame>, n: nat, f: Frame)
    requires ValidConfig(c) && n <= Count(c) && AllConfirm(c, control, n) && f in control
    ensures Confirms(c, f, n)
  {
  }

  lemma DeliverKeepsInv(c: Config, s: State, f: Frame)
    requires ValidConfig(c) && Inv(c, s) && Next(c, s, DeliverData(f)).Some?
    ensures Inv(c, Next(c, s, DeliverData(f)).value)
  {
    hide Plan, React, FrameCount, HoldsPrefix, AllPlanned, AllConfirm;
    var r, t := Taken(c, s), Next(c, s, DeliverData(f)).value;
    FinishedOnlyAtEnd(c, s.rx, r);
    var j := PlannedOne(c, s.data, Written(s), f);
    ReactToPlan(c, s.rx, r, j);
    Fewer(c, s.data, t.data, Written(s), s.control, s.control, r);
    MoreConfirm(c, s.control, r, j, Taken(c, t));
  }

  lemma PlannedOne(c: Config, data: multiset<Frame>, n: nat, f: Frame) returns (j: nat)
    requires ValidConfig(c) && n <= Count(c) && AllPlanned(c, data, n) && f in data
    ensures j < n && Plan(c.packet)[j] == f
  {
    assert Planned(c, f, n);
    j :| j < n && Plan(c.packet)[j] == f;
  }

  lemma FinishedOnlyAtEnd(c: Config, rx: Assembly, r: nat)
    requires ValidConfig(c) && HoldsPrefix(c, rx, r)
    ensures rx.finished <==> r == Count(c)
    ensures rx.finished ==> rx.buffer == c.packet
    ensures !rx.finished ==> rx.expected == r && rx.buffer == CarriedBy(c, r)
  {
    hide Plan;
    PlanPrefixState(c.packet, c.capacity, r);
    if 0 < r < Count(c) {
      FrameCountBounds(|c.packet|);
      ChunkStartBelow(|c.packet|, r);
    }
  }

  lemma {:induction false} RunKeepsInv(c: Config, s: State, events: seq<Event>)
    requires ValidConfig(c) && Inv(c, s) && Run(c, s, events).Some?
    ensures Inv(c, Run(c, s, events).value)
    decreases events
  {
    hide Inv, Next;
    if events != [] {
      StepKeepsInv(c, s, events[0]);
      RunKeepsInv(c, Next(c, s, events[0]).value, events[1..]);
    }
  }

  // ---------------------------------------------------------------------------
  // Safety of every run

  /** A sender that has completed leaves a receiver that has returned; a receiver that has returned holds
      exactly the packet; until then it holds the bytes of the frames it has taken, which are those before the
      sender's current frame or that one too; and no frame has been refused. */
  ghost predicate Safe(c: Config, s: State)
    requires ValidConfig(c)
  {
    && (s.sender == Done ==> s.receiver == Returned)
    && (s.receiver == Returned ==> s.rx.finished && s.rx.buffer == c.packet)
    && (s.receiver != Returned ==>
          !s.rx.finished && s.k <= s.rx.expected <= s.k + 1
          && s.rx.buffer == CarriedBy(c, s.rx.expected))
    && (forall f :: f in s.control ==> f.kind == Ack)
  }

  lemma InvIsSafe(c: Config, s: State)
    requires ValidConfig(c) && Inv(c, s)
    ensures Safe(c, s)
  {
    hide Plan, FrameCount, HoldsPrefix;
    FinishedOnlyAtEnd(c, s.rx, Taken(c, s));
    forall f | f in s.control ensures f.kind == Ack {
      assert Confirms(c, f, Taken(c, s));
    }
  }

  /** Over every run from empty channels, whatever is lost, duplicated or reordered. */
  lemma StopAndWaitSafe(c: Config, events: seq<Event>)
    requires ValidConfig(c) && Run(c, Initial(c), events).Some?
    ensures Safe(c, Run(c, Initial(c), events).value)
  {
    hide Inv, Next, Run, Safe;
    InitialInv(c);
    RunKeepsInv(c, Initial(c), events);
    InvIsSafe(c, Run(c, Initial(c), events).value);
  }

  // ---------------------------------------------------------------------------
  // Completion

  /** The three steps that carry one frame across when nothing goes wrong. */
  function Exchange(c: Config, k: nat): seq<Event>
    requires ValidConfig(c) && k < Count(c)
  {
    [Transmit, DeliverData(Plan(c.packet)[k]), HearControl(AckFor(SequenceAt(c.packet, k)))]
  }

  /** The sender is about to write a frame, for the first time or again, and the receiver is still there;
      it may have taken this very frame already. */
  ghost predicate AtWrite(c: Config, s: State)
    requires ValidConfig(c)
  {
    Inv(c, s) && s.sender == Ready && s.tries < c.retries && s.receiver == Receiving
  }

  lemma ExchangeWorks(c: Config, s: State)
    requires ValidConfig(c) && AtWrite(c, s)
    ensures s.k < Count(c) && Run(c, s, Exchange(c, s.k)).Some?
    ensures var t := Run(c, s, Exchange(c, s.k)).value;
      && Inv(c, t) && t.k == s.k + 1
      && if t.k == Count(c) then t.sender == Done else AtWrite(c, t)
  {
    hide Plan, React, Judge, FrameCount, HoldsPrefix, AllPlanned, AllConfirm;
    var k, f, ack := s.k, Plan(c.packet)[s.k], AckFor(SequenceAt(c.packet, s.k));
    FinishedOnlyAtEnd(c, s.rx, Taken(c, s));
    var s1 := Next(c, s, Transmit).value;
    StepKeepsInv(c, s, Transmit);
    ReactToPlan(c, s1.rx, Taken(c, s), k);
    var s2 := Next(c, s1, DeliverData(f)).value;
    StepKeepsInv(c, s1, DeliverData(f));
    assert ack in s2.control;
    JudgeOwnAck(c, k);
    var s3 := Next(c, s2, HearControl(ack)).value;
    StepKeepsInv(c, s2, HearControl(ack));
    FinishedOnlyAtEnd(c, s3.rx, Taken(c, s3));
    RunOfThree(c, s, Transmit, DeliverData(f), HearControl(ack));
  }

  lemma JudgeOwnAck(c: Config, k: nat)
    requires ValidConfig(c) && k < Count(c)
    ensures Judge(AckFor(SequenceAt(c.packet, k)), SequenceAt(c.packet, k)) == Acknowledged
  {
  }

  lemma RunOfThree(c: Config, s: State, a: Event, b: Event, d: Event)
    requires ValidConfig(c) && Next(c, s, a).Some? && Next(c, Next(c, s, a).value, b).Some?
    ensures Run(c, s, [a, b, d]) == Next(c, Next(c, Next(c, s, a).value, b).value, d)
  {
    hide Next;
    assert [a, b, d][1..] == [b, d] && [b, d][1..] == [d] && [d][1..] == [];
    var s2 := Next(c, Next(c, s, a).value, b).value;
    assert Run(c, s2, [d]) == match Next(c, s2, d) case None => None case Some(t) => Run(c, t, []);
  }

  lemma {:induction false} RunAppend(c: Config, s: State, a: seq<Event>, b: seq<Event>)
    requires ValidConfig(c) && Run(c, s, a).Some?
    ensures Run(c, s, a + b) == Run(c, Run(c, s, a).value, b)
    decreases a
  {
    hide Next;
    if a == [] {
      assert a + b == b;
    } else {
      assert (a + b)[0] == a[0] && (a + b)[1..] == a[1..] + b;
      RunAppend(c, Next(c, s, a[0]).value, a[1..], b);
    }
  }

  /** Whatever has happened so far, as long as the receiver is still there and a write is left, a transfer
      can be completed: three steps a frame. In particular every packet that fits can be transferred. */
  lemma {:induction false} CanComplete(c: Config, s: State) returns (events: seq<Event>)
    requires ValidConfig(c) && AtWrite(c, s)
    ensures |events| == 3 * (Count(c) - s.k)
    ensures Run(c, s, events).Some? && Run(c, s, events).value.sender == Done
    decreases Count(c) - s.k
  {
    hide Next, Run, Inv, FrameCount;
    ExchangeWorks(c, s);
    var first := Exchange(c, s.k);
    var t := Run(c, s, first).value;
    if t.k == Count(c) {
      events := first;
    } else {
      var rest := CanComplete(c, t);
      events := first + rest;
      RunAppend(c, s, first, rest);
    }
  }

  // ---------------------------------------------------------------------------
  // When a transfer can still complete

  predicate CompletesBy(c: Config, s: State, events: seq<Event>)
    requires ValidConfig(c)
  {
    Run(c, s, events).Some? && Run(c, s, events).value.sender == Done
  }

  function OwnAck(c: Config, s: State): Frame
    requires ValidConfig(c) && s.k < Count(c)
  {
    AckFor(SequenceAt(c.packet, s.k))
  }

  /** The receiver is still there, or has returned with an acknowledgement of the sender's frame on its way;
      and the sender has a write left, now or after a timeout, or the frame or its acknowledgement is on its
      way. */
  predicate Open(c: Config, s: State)
    requires ValidConfig(c)
  {
    s.sender == Done
    || (&& s.k < Count(c)
        && (s.receiver == Receiving || (s.receiver == Returned && OwnAck(c, s) in s.control))
        && match s.sender
           case Ready => s.tries < c.retries
           case Waiting =>
             || OwnAck(c, s) in s.control
             || (c.retryOnTimeout && s.tries < c.retries)
             || (s.receiver == Receiving && Plan(c.packet)[s.k] in s.data)
           case _ => false)
  }

  /** No step opens a transfer again. */
  lemma OpenBefore(c: Config, s: State, e: Event)
    requires ValidConfig(c) && Inv(c, s) && Next(c, s, e).Some? && Open(c, Next(c, s, e).value)
    ensures Open(c, s)
  {
    hide Plan, React, FrameCount, HoldsPrefix, Judge, AllPlanned, AllConfirm, SequenceAt;
    StepKeepsInv(c, s, e);
    match e {
      case HearControl(f) => OpenBeforeHearing(c, s, f);
      case DeliverData(f) => OpenBeforeDelivery(c, s, f);
      case _ =>
    }
  }

  lemma OpenBeforeHearing(c: Config, s: State, f: Frame)
    requires ValidConfig(c) && Inv(c, s) && Next(c, s, HearControl(f)).Some? && Inv(c, Next(c, s, HearControl(f)).value)
    requires Open(c, Next(c, s, HearControl(f)).value)
    ensures Open(c, s)
  {
    hide Plan, React, FrameCount, HoldsPrefix, Judge, AllPlanned, AllConfirm, SequenceAt;
    var t := Next(c, s, HearControl(f)).value;
    ConfirmsOne(c, s.control, Taken(c, s), f);
    JudgeConfirmation(c, f, Taken(c, s), s.k);
    JudgedOwn(c, f, Taken(c, s), s.k);
    FinishedOnlyAtEnd(c, s.rx, Taken(c, s));
  }

  /** The only answer a sender takes for an acknowledgement is that of its own frame. */
  lemma JudgedOwn(c: Config, f: Frame, n: nat, k: nat)
    requires ValidConfig(c) && n <= Count(c) && k < Count(c) && Confirms(c, f, n)
    ensures Judge(f, SequenceAt(c.packet, k)) == Acknowledged ==> f == AckFor(SequenceAt(c.packet, k))
  {
    var j: nat :| j < n && f == AckFor(SequenceAt(c.packet, j));
    PlanSequence(c.packet, k);
  }

  lemma OpenBeforeDelivery(c: Config, s: State, f: Frame)
    requires ValidConfig(c) && Inv(c, s) && Next(c, s, DeliverData(f)).Some?
    requires Open(c, Next(c, s, DeliverData(f)).value)
    ensures Open(c, s)
  {
    hide Plan, React, FrameCount, HoldsPrefix, AllPlanned, AllConfirm, SequenceAt;
    FinishedOnlyAtEnd(c, s.rx, Taken(c, s));
    var j := PlannedOne(c, s.data, Written(s), f);
    ReactToPlan(c, s.rx, Taken(c, s), j);
    if s.k < Count(c) {
      AcksDiffer(c, j, s.k);
    }
  }

  lemma AcksDiffer(c: Config, j: nat, k: nat)
    requires ValidConfig(c) && j < Count(c) && k < Count(c)
    ensures AckFor(SequenceAt(c.packet, j)) == AckFor(SequenceAt(c.packet, k)) ==> j == k
  {
    PlanSequence(c.packet, k);
  }

  lemma {:induction false} OpenAllAlong(c: Config, s: State, events: seq<Event>)
    requires ValidConfig(c) && Inv(c, s) && CompletesBy(c, s, events)
    ensures Open(c, s)
    decreases events
  {
    hide Next, Inv, FrameCount;
    if events != [] {
      var t := Next(c, s, events[0]).value;
      StepKeepsInv(c, s, events[0]);
      OpenAllAlong(c, t, events[1..]);
      OpenBefore(c, s, events[0]);
    }
  }

  lemma OneBefore(c: Config, s: State, e: Event, events: seq<Event>)
    requires ValidConfig(c) && Next(c, s, e).Some? && CompletesBy(c, Next(c, s, e).value, events)
    ensures CompletesBy(c, s, [e] + events)
  {
    hide Next;
    assert ([e] + events)[0] == e && ([e] + events)[1..] == events;
  }

  lemma RunsOut(c: Config, s: State, events: seq<Event>)
    requires ValidConfig(c) && Run(c, s, events).Some? && Run(c, s, events).value.sender == Done
    ensures CompletesBy(c, s, events)
  {
  }

  lemma AlreadyDone(c: Config, s: State)
    requires ValidConfig(c) && s.sender == Done
    ensures CompletesBy(c, s, [])
  {
  }

  /** The acknowledgement is heard, and then every frame that is left is exchanged. */
  lemma {:induction false} HearAndComplete(c: Config, s: State) returns (events: seq<Event>)
    requires ValidConfig(c) && Inv(c, s) && s.sender == Waiting && s.k < Count(c)
    requires s.receiver != Aborted && OwnAck(c, s) in s.control
    ensures CompletesBy(c, s, events)
  {
    hide Plan, React, FrameCount, HoldsPrefix, AllPlanned, AllConfirm, SequenceAt, Run;
    var e := HearControl(OwnAck(c, s));
    JudgeOwnAck(c, s.k);
    StepKeepsInv(c, s, e);
    var t := Next(c, s, e).value;
    FinishedOnlyAtEnd(c, s.rx, Taken(c, s));
    if t.sender == Done {
      events := [];
      AlreadyDone(c, t);
    } else {
      events := CanComplete(c, t);
    }
    OneBefore(c, s, e, events);
    events := [e] + events;
  }

  /** From an open state the transfer can be completed. */
  lemma {:induction false} Complete(c: Config, s: State) returns (events: seq<Event>)
    requires ValidConfig(c) && Inv(c, s) && Open(c, s)
    ensures CompletesBy(c, s, events)
    decreases if s.sender == Waiting then 1 else 0
  {
    hide Plan, React, FrameCount, HoldsPrefix, Judge, AllPlanned, AllConfirm, SequenceAt, Run, CompletesBy;
    if s.sender == Done {
      AlreadyDone(c, s);
      return [];
    }
    if s.sender == Waiting && OwnAck(c, s) in s.control {
      events := HearAndComplete(c, s);
      return;
    }
    if AtWrite(c, s) {
      events := CanComplete(c, s);
      RunsOut(c, s, events);
      return;
    }
    var e := if s.sender == Ready then Transmit
      else if c.retryOnTimeout && s.tries < c.retries then SenderTimeout
      else DeliverData(Plan(c.packet)[s.k]);
    StepKeepsInv(c, s, e);
    var t := Next(c, s, e).value;
    if e.SenderTimeout? {
      events := Complete(c, t);
    } else {
      if e.DeliverData? {
        FinishedOnlyAtEnd(c, s.rx, Taken(c, s));
        ReactToPlan(c, s.rx, Taken(c, s), s.k);
      }
      events := HearAndComplete(c, t);
    }
    OneBefore(c, s, e, events);
    events := [e] + events;
  }

  /** Whatever has happened so far, in any state that keeps the invariant, which every reachable one does: the
      transfer can still complete if and only if it is open. */
  lemma CompletableExact(c: Config, s: State)
    requires ValidConfig(c) && Inv(c, s)
    ensures (exists events :: CompletesBy(c, s, events)) <==> Open(c, s)
  {
    hide Run, Inv, Open, CompletesBy, FrameCount;
    if Open(c, s) {
      var events := Complete(c, s);
    }
    forall events | CompletesBy(c, s, events) ensures Open(c, s) {
      OpenAllAlong(c, s, events);
    }
  }

  // ---------------------------------------------------------------------------
  // What the channel and a lone sender do

  /** The data frame that a step puts on its way, and the one it takes off; likewise the answers. */
  function DataIn(c: Config, s: State, e: Event): multiset<Frame>
    requires ValidConfig(c)
  {
    match e
    case Transmit => if s.k < Count(c) then multiset{Plan(c.packet)[s.k]} else multiset{}
    case DuplicateData(f) => multiset{f}
    case _ => multiset{}
  }

  function DataOut(e: Event): multiset<Frame> {
    match e
    case DropData(f) => multiset{f}
    case DeliverData(f) => multiset{f}
    case _ => multiset{}
  }

  function ControlIn(s: State, e: Event): multiset<Frame> {
    match e
    case DuplicateControl(f) => multiset{f}
    case DeliverData(f) => if React(s.rx, f).reply.Some? then multiset{React(s.rx, f).reply.value} else multiset{}
    case _ => multiset{}
  }

  function ControlOut(e: Event): multiset<Frame> {
    match e
    case DropControl(f) => multiset{f}
    case HearControl(f) => multiset{f}
    case _ => multiset{}
  }

  /** Frames are conserved: they come into the channel by being written, sent in answer, or duplicated, and leave
      it by being lost, delivered or heard, one at a time. */
  lemma ChannelExact(c: Config, s: State, e: Event)
    requires ValidConfig(c) && Next(c, s, e).Some?
    ensures var t := Next(c, s, e).value;
      && t.data + DataOut(e) == s.data + DataIn(c, s, e)
      && t.control + ControlOut(e) == s.control + ControlIn(s, e)
  {
    hide Next, DataIn, DataOut, ControlIn, ControlOut, ValidConfig;
    match e {
      case HearControl(f) => HearTakes(c, s, f);
      case DeliverData(f) => DeliveryTakes(c, s, f);
      case Transmit => EndsTouch(c, s, e);
      case GiveUp => EndsTouch(c, s, e);
      case SenderTimeout => EndsTouch(c, s, e);
      case SenderAbort => EndsTouch(c, s, e);
      case ReceiverAbort => EndsTouch(c, s, e);
      case _ => LossTakes(c, s, e);
    }
  }

  lemma EndsTouch(c: Config, s: State, e: Event)
    requires ValidConfig(c) && Next(c, s, e).Some? && e in {Transmit, GiveUp, SenderTimeout, SenderAbort, ReceiverAbort}
    ensures var t := Next(c, s, e).value;
      && t.data + DataOut(e) == s.data + DataIn(c, s, e)
      && t.control + ControlOut(e) == s.control + ControlIn(s, e)
  {
    hide Plan, React, Judge, FrameCount, SequenceAt;
  }

  lemma LossTakes(c: Config, s: State, e: Event)
    requires ValidConfig(c) && Next(c, s, e).Some?
    requires e.DropData? || e.DuplicateData? || e.DropControl? || e.DuplicateControl?
    ensures var t := Next(c, s, e).value;
      && t.data + DataOut(e) == s.data + DataIn(c, s, e)
      && t.control + ControlOut(e) == s.control + ControlIn(s, e)
  {
    hide Plan, React, Judge, FrameCount, SequenceAt;
    if e.DropData? {
      TakenBack(s.data, e.f);
    }
    if e.DropControl? {
      TakenBack(s.control, e.f);
    }
  }

  lemma HearTakes(c: Config, s: State, f: Frame)
    requires ValidConfig(c) && Next(c, s, HearControl(f)).Some?
    ensures var t := Next(c, s, HearControl(f)).value;
      && t.data + DataOut(HearControl(f)) == s.data + DataIn(c, s, HearControl(f))
      && t.control + ControlOut(HearControl(f)) == s.control + ControlIn(s, HearControl(f))
  {
    hide Plan, React, Judge, FrameCount, SequenceAt;
    TakenBack(s.control, f);
  }

  lemma DeliveryTakes(c: Config, s: State, f: Frame)
    requires ValidConfig(c) && Next(c, s, DeliverData(f)).Some?
    ensures var t := Next(c, s, DeliverData(f)).value;
      && t.data + DataOut(DeliverData(f)) == s.data + DataIn(c, s, DeliverData(f))
      && t.control + ControlOut(DeliverData(f)) == s.control + ControlIn(s, DeliverData(f))
  {
    hide Plan, React, Judge, FrameCount, SequenceAt;
    TakenBack(s.data, f);
  }

  lemma TakenBack(m: multiset<Frame>, f: Frame)
    requires f in m
    ensures m - multiset{f} + multiset{f} == m
  {
  }

  /** The channel may lose or duplicate whatever is in it, and either end may stop at any time while it works. */
  lemma AlwaysPossible(c: Config, s: State, f: Frame)
    requires ValidConfig(c)
    ensures (Next(c, s, DropData(f)).Some? <==> f in s.data) && (Next(c, s, DuplicateData(f)).Some? <==> f in s.data)
    ensures Next(c, s, DropControl(f)).Some? <==> f in s.control
    ensures Next(c, s, DuplicateControl(f)).Some? <==> f in s.control
    ensures Next(c, s, DeliverData(f)).Some? <==> f in s.data && s.receiver == Receiving
    ensures Next(c, s, ReceiverAbort) == if s.receiver == Receiving then Some(s.(receiver := Aborted)) else None
    ensures Next(c, s, SenderAbort) == if s.sender in {Ready, Waiting} then Some(s.(sender := GaveUp)) else None
  {
    hide Plan, React, Judge, FrameCount, SequenceAt;
  }

  /** What frames do that a run from empty channels never has on its way: a refusal of the sender's frame makes it
      write again, an answer without a number makes it give up; a data frame that the assembler does not take is
      refused and ends the receiver's part. */
  lemma OddFrames(c: Config, s: State, f: Frame)
    requires ValidConfig(c) && s.k < Count(c)
    ensures s.sender == Waiting && f in s.control && f == NackFor(SequenceAt(c.packet, s.k)) ==>
      Next(c, s, HearControl(f)) == Some(s.(control := s.control - multiset{f}, sender := Ready))
    ensures s.sender == Waiting && f in s.control && IsControl(f) && f.payload == [] ==>
      Next(c, s, HearControl(f)) == Some(s.(control := s.control - multiset{f}, sender := GaveUp))
    ensures
      (&& s.receiver == Receiving && f in s.data && !IsControl(f) && Sequence(f).Ok?
       && !IsDuplicate(s.rx, f) && Accept(s.rx, f).Err?) ==>
      Next(c, s, DeliverData(f)) ==
      Some(s.(data := s.data - multiset{f}, control := s.control + multiset{NackFor(Sequence(f).value)},
              receiver := Aborted))
  {
    hide Plan, FrameCount, SequenceAt, Accept;
  }

  /** A sender that hears nothing gives up by itself once its writes are used up, or, without retries after a
      timeout, at the first. */
  lemma {:induction false} GivesUp(c: Config, s: State) returns (events: seq<Event>)
    requires ValidConfig(c) && Inv(c, s) && s.sender in {Ready, Waiting}
    ensures Run(c, s, events).Some? && Run(c, s, events).value.sender == GaveUp
    ensures forall i :: 0 <= i < |events| ==> events[i] in {Transmit, SenderTimeout, GiveUp}
    ensures |events| == if c.retryOnTimeout then 2 * (c.retries - s.tries) + (if s.sender == Waiting then 2 else 1)
      else if s.sender == Ready && s.tries < c.retries then 2 else 1
    decreases c.retries - s.tries, if s.sender == Waiting then 1 else 0
  {
    hide Plan, FrameCount, HoldsPrefix, AllPlanned, AllConfirm, Run;
    var e := if s.sender == Waiting then SenderTimeout else if s.tries < c.retries then Transmit else GiveUp;
    StepKeepsInv(c, s, e);
    var t := Next(c, s, e).value;
    if t.sender == GaveUp {
      events := [];
      RunNothing(c, t);
    } else {
      events := GivesUp(c, t);
    }
    RunStarts(c, s, e, events);
    events := [e] + events;
  }

  lemma RunNothing(c: Config, s: State)
    requires ValidConfig(c)
    ensures Run(c, s, []) == Some(s)
  {
  }

  lemma RunStarts(c: Config, s: State, e: Event, events: seq<Event>)
    requires ValidConfig(c) && Next(c, s, e).Some?
    ensures Run(c, s, [e] + events) == Run(c, Next(c, s, e).value, events)
  {
    hide Next;
    assert ([e] + events)[0] == e && ([e] + events)[1..] == events;
  }

  // ---------------------------------------------------------------------------
  // The device as the receiver

  /** The device's receiver, given every frame the run delivers, answers like the host's and holds the same
      all along. */
  ghost predicate DeviceTracks(c: Config, s: State, d: DeviceAssembly, events: seq<Event>)
    requires ValidConfig(c)
    decreases events
  {
    Matches(s.rx, d)
    && (events != [] && Next(c, s, events[0]).Some? ==>
          var t := Next(c, s, events[0]).value;
          if events[0].DeliverData? then
            DeviceReactions.WholeEncode(events[0].f);
            var y := DeviceReactions.React(d, Encode(events[0].f));
            DeviceReactions.Alike(React(s.rx, events[0].f), y) && DeviceTracks(c, t, y.next, events[1..])
          else DeviceTracks(c, t, d, events[1..]))
  }

  /** So all that is proved here of a transfer holds with the device as its receiver, whose byte counter and
      error latch never come into play. */
  lemma {:induction false} DeviceTracksRun(c: Config, s: State, d: DeviceAssembly, events: seq<Event>)
    requires ValidConfig(c) && c.capacity >= MAX_DATA_SIZE && Inv(c, s) && Matches(s.rx, d)
    requires Run(c, s, events).Some?
    ensures DeviceTracks(c, s, d, events)
    decreases events
  {
    hide Inv, React, FrameCount, HoldsPrefix, Plan, DeviceReactions.React, Encode, Matches;
    if events != [] {
      var e := events[0];
      var t := Next(c, s, e).value;
      StepKeepsInv(c, s, e);
      SameReceiver(c, s, e);
      if e.DeliverData? {
        DeviceStep(c, s, d, e.f);
        DeviceReactions.WholeEncode(e.f);
        DeviceTracksRun(c, t, DeviceReactions.React(d, Encode(e.f)).next, events[1..]);
      } else {
        DeviceTracksRun(c, t, d, events[1..]);
      }
    }
  }

  lemma SameReceiver(c: Config, s: State, e: Event)
    requires ValidConfig(c) && Next(c, s, e).Some?
    ensures !e.DeliverData? ==> Next(c, s, e).value.rx == s.rx
    ensures e.DeliverData? ==>
      Next(c, s, e).value.rx == React(s.rx, e.f).next && s.receiver == Receiving && e.f in s.data
  {
    hide React, Judge, Plan, FrameCount;
  }

  lemma DeviceStep(c: Config, s: State, d: DeviceAssembly, f: Frame)
    requires ValidConfig(c) && c.capacity >= MAX_DATA_SIZE && Inv(c, s) && Matches(s.rx, d)
    requires s.receiver == Receiving && f in s.data
    ensures React(s.rx, f).failure == None
    ensures DeviceUart.WholeFrame(Encode(f))
    ensures DeviceReactions.Alike(React(s.rx, f), DeviceReactions.React(d, Encode(f)))
    ensures Matches(React(s.rx, f).next, DeviceReactions.React(d, Encode(f)).next)
  {
    hide React, FrameCount, Plan, DeviceReactions.React, Encode, Matches, Sequence, AcceptAll;
    var r := Taken(c, s);
    FinishedOnlyAtEnd(c, s.rx, r);
    assert Planned(c, f, Written(s));
    var j := PlannedOne(c, s.data, Written(s), f);
    ReactToPlan(c, s.rx, r, j);
    PrefixSound(c, s.rx, r);
    PlanSequence(c.packet, j);
    FrameCountBounds(|c.packet|);
    DeviceReactions.ReactsAlike(s.rx, d, f);
  }

  lemma PrefixSound(c: Config, rx: Assembly, r: nat)
    requires ValidConfig(c) && HoldsPrefix(c, rx, r)
    ensures Sound(rx) && rx.capacity == c.capacity
  {
    hide AcceptAll, Plan, FrameCount, Transmits, Numbered;
    PlanPrefixState(c.packet, c.capacity, r);
    AssemblySound(c.capacity, Plan(c.packet)[..r]);
    FrameCountBounds(|c.packet|);
  }

  /** The device starts as the host does. */
  lemma DeviceStarts(c: Config, events: seq<Event>)
    requires ValidConfig(c) && c.capacity >= MAX_DATA_SIZE && Run(c, Initial(c), events).Some?
    ensures DeviceTracks(c, Initial(c), DeviceFresh(c.capacity), events)
  {
    InitialInv(c);
    DeviceTracksRun(c, Initial(c), DeviceFresh(c.capacity), events);
  }

  // ---------------------------------------------------------------------------
  // The last acknowledgement

  /** The receiver has returned, and no acknowledgement of the frame the sender is on is left. */
  ghost predicate LastAckLost(c: Config, s: State)
    requires ValidConfig(c)
  {
    && Inv(c, s) && s.receiver == Returned && s.k < Count(c)
    && AckFor(SequenceAt(c.packet, s.k)) !in s.control
  }

  lemma LostStaysLost(c: Config, s: State, e: Event)
    requires ValidConfig(c) && LastAckLost(c, s) && Next(c, s, e).Some?
    ensures LastAckLost(c, Next(c, s, e).value) && Next(c, s, e).value.k == s.k
  {
    hide Plan, React, FrameCount, HoldsPrefix, Judge;
    StepKeepsInv(c, s, e);
    if e.HearControl? {
      JudgeAcknowledged(c, s, e.f);
    }
  }

  lemma JudgeAcknowledged(c: Config, s: State, f: Frame)
    requires ValidConfig(c) && LastAckLost(c, s) && f in s.control
    ensures Judge(f, SequenceAt(c.packet, s.k)) == Unrelated
  {
    assert Confirms(c, f, Taken(c, s));
    JudgeConfirmation(c, f, Taken(c, s), s.k);
    var j: nat :| j < Taken(c, s) && f == AckFor(SequenceAt(c.packet, j));
    PlanSequence(c.packet, s.k);
  }

  /** A finished receiver no longer acknowledges: once its last acknowledgement is lost, the packet is
      delivered but no continuation, however long, lets the sender find out. */
  lemma {:induction false} LostAckIsFatal(c: Config, s: State, events: seq<Event>)
    requires ValidConfig(c) && LastAckLost(c, s) && Run(c, s, events).Some?
    ensures Run(c, s, events).value.sender != Done
    ensures Run(c, s, events).value.rx.buffer == c.packet
    decreases events
  {
    hide Next, HoldsPrefix, FrameCount;
    if events == [] {
      FinishedOnlyAtEnd(c, s.rx, Taken(c, s));
    } else {
      LostStaysLost(c, s, events[0]);
      LostAckIsFatal(c, Next(c, s, events[0]).value, events[1..]);
    }
  }

  /** So a waiting sender whose receiver has returned can still complete if and only if an
      acknowledgement of its frame is on the way. */
  lemma LostAckExact(c: Config, s: State)
    requires ValidConfig(c) && Inv(c, s) && s.receiver == Returned && s.sender == Waiting && s.k < Count(c)
    ensures (exists events :: CompletesBy(c, s, events)) <==> AckFor(SequenceAt(c.packet, s.k)) in s.control
  {
    hide Run, Inv, FrameCount, CompletesBy, SequenceAt, Plan;
    CompletableExact(c, s);
  }

  /** And it does happen: a one-frame packet whose only acknowledgement is dropped. */
  lemma LostAckIsReachable()
    ensures var c := Config([7], 2048, 3, true);
      var lost := [Transmit, DeliverData(FrameOf(Single, [7])), DropControl(AckFor(SINGLE_SEQUENCE))];
      ValidConfig(c) && Run(c, Initial(c), lost).Some? && LastAckLost(c, Run(c, Initial(c), lost).value)
  {
    hide Next, Run, Inv;
    var c, f, ack := Config([7], 2048, 3, true), FrameOf(Single, [7]), AckFor(SINGLE_SEQUENCE);
    var s0 := Initial(c);
    InitialInv(c);
    assert Count(c) == 1 && Plan(c.packet)[0] == f && SequenceAt(c.packet, 0) == SINGLE_SEQUENCE;
    LostSteps(c, f, ack);
    var s1 := Next(c, s0, Transmit).value;
    var s2 := Next(c, s1, DeliverData(f)).value;
    RunOfThree(c, s0, Transmit, DeliverData(f), DropControl(ack));
    StepKeepsInv(c, s0, Transmit);
    StepKeepsInv(c, s1, DeliverData(f));
    StepKeepsInv(c, s2, DropControl(ack));
  }

  lemma LostSteps(c: Config, f: Frame, ack: Frame)
    requires c == Config([7], 2048, 3, true) && f == FrameOf(Single, [7]) && ack == AckFor(SINGLE_SEQUENCE)
    requires ValidConfig(c) && Count(c) == 1 && Plan(c.packet)[0] == f
    ensures var s0 := Initial(c);
      && Next(c, s0, Transmit).Some?
      && var s1 := Next(c, s0, Transmit).value;
      && Next(c, s1, DeliverData(f)).Some?
      && var s2 := Next(c, s1, DeliverData(f)).value;
      && Next(c, s2, DropControl(ack)).Some?
      && var s3 := Next(c, s2, DropControl(ack)).value;
      && s3.receiver == Returned && s3.k == 0 && ack !in s3.control
  {
    hide Plan, FrameCount;
    var s1 := Next(c, Initial(c), Transmit).value;
    assert React(s1.rx, f).reply == Some(ack) && React(s1.rx, f).next.finished && React(s1.rx, f).failure == None;
    var s2 := Next(c, s1, DeliverData(f)).value;
    assert s2.control == multiset{ack};
  }
}
