/** The device as the sender of a packet, over the channel of module StopAndWait
    (device/src/factory_session.c, `send_current_packet` and `wait_flow_control`): what it writes comes from
    the one buffer it also reads answers into, so that a frame is not what is written again once anything has
    been read. */
module SharedBuffer {
  import opened Bytes
  import opened Crc
  import opened Frames
  import opened Fragmenter
  import opened Assembler
  import opened Reader
  import opened DeviceUart
  import opened DeviceControl
  import opened DeviceLink
  import opened StopAndWait
  import Link

  type Part = b: bytes | |b| <= MAX_SIZE witness []

  /** The two ends and the data frames and answers on their way; what the sender's buffer was last filled with;
      and what else is on its way to the receiver. */
  datatype Shared = Shared(link: State, held: Part, stray: multiset<bytes>)

  /** `Write(n)` puts the first `n` bytes of what the buffer holds on the wire. `Hear(f, n)` reads the first
      `n` bytes of a frame; the answers come from the channel, and data frames the host may send at any time.
      `HearNothing` is a read that failed before a frame began, and `SenderTimeout` the end of the wait without
      another read. */
  datatype SharedEvent =
    | Plain(e: Event) | Write(n: nat) | Hear(f: Frame, n: nat) | HearNothing
    | DeliverStray(p: bytes) | DropStray(p: bytes) | DuplicateStray(p: bytes)

  /** The device's sender writes again after a timeout. */
  predicate Retrying(c: Config) {
    ValidConfig(c) && c.retryOnTimeout
  }

  function Start(c: Config): Shared
    requires Retrying(c)
  {
    Shared(Initial(c), Encode(Plan(c.packet)[0]), multiset{})
  }

  /** What a write of the whole buffer puts on the wire. */
  function Piece(s: Shared): bytes {
    Outgoing(Fill(s.held))
  }

  function NextShared(c: Config, s: Shared, e: SharedEvent): Option<Shared>
    requires Retrying(c)
  {
    match e
    case Plain(a) =>
      if a.Transmit? || a.HearControl? || Next(c, s.link, a).None? then None
      else Some(s.(link := Next(c, s.link, a).value))
    case Write(n) =>
      if s.link.sender == Ready && s.link.tries < c.retries && s.link.k < Count(c) && n <= |Piece(s)|
      then Some(AfterWrite(s, n))
      else None
    case Hear(f, n) =>
      if && s.link.sender == Waiting && (IsControl(f) ==> f in s.link.control)
         && s.link.k < Count(c) && 2 <= n <= |Encode(f)|
      then Some(AfterHearing(c, s, f, n))
      else None
    case HearNothing =>
      if s.link.sender == Waiting then Some(s.(held := [], link := s.link.(sender := Ready))) else None
    case DeliverStray(p) =>
      if s.link.receiver == Receiving && p in s.stray
      then Some(TakeStray(s.(stray := s.stray - multiset{p}), p))
      else None
    case DropStray(p) => if p in s.stray then Some(s.(stray := s.stray - multiset{p})) else None
    case DuplicateStray(p) => if p in s.stray then Some(s.(stray := s.stray + multiset{p})) else None
  }

  /** A write that puts out the whole of a frame is followed by a wait; any other is a failed attempt. */
  function AfterWrite(s: Shared, n: nat): Shared
    requires n <= |Piece(s)|
  {
    var piece := Piece(s)[..n];
    var whole := Sendable(Fill(s.held)) && n == |Piece(s)|;
    var t := s.link.(tries := s.link.tries + 1, sender := if whole then Waiting else Ready);
    if Decode(piece).Ok? && !IsControl(Decode(piece).value)
    then s.(link := t.(data := t.data + multiset{Decode(piece).value}))
    else s.(link := t, stray := if n == 0 then s.stray else s.stray + multiset{piece})
  }

  /** What was read is in the buffer; but the next frame is built there once the last one is acknowledged. */
  function AfterHearing(c: Config, s: Shared, f: Frame, n: nat): Shared
    requires Retrying(c) && s.link.k < Count(c) && n <= |Encode(f)|
  {
    var t := s.link.(control := s.link.control - multiset{f});
    var k := t.k + 1;
    if n < |Encode(f)| then Shared(t.(sender := Ready), Encode(f)[..n], s.stray)
    else match DeviceJudge(Fill(Encode(f)), Link.SequenceAt(c.packet, t.k))
      case Unrelated => Shared(t, Encode(f), s.stray)
      case Acknowledged =>
        Shared(t.(k := k, tries := 0, sender := if k == Count(c) then Done else Ready),
               if k == Count(c) then Encode(f) else Encode(Plan(c.packet)[k]), s.stray)
      case _ => Shared(t.(sender := Ready), Encode(f), s.stray)
  }

  /** The host raises at bytes that are no frame. */
  function TakeStray(s: Shared, p: bytes): Shared {
    s.(link := if Decode(p).Err? then s.link.(receiver := Aborted)
               else StopAndWait.Receive(s.link, Link.React(s.link.rx, Decode(p).value)))
  }

  function RunShared(c: Config, s: Shared, events: seq<SharedEvent>): Option<Shared>
    requires Retrying(c)
    decreases events
  {
    if events == [] then Some(s)
    else match NextShared(c, s, events[0])
      case None => None
      case Some(t) => RunShared(c, t, events[1..])
  }

  // ---------------------------------------------------------------------------
  // What is on its way

  /** What a step puts on its way beside the frames that module StopAndWait tracks, and what it takes off. A write
      puts out the first bytes of what the buffer holds; if they are a data frame, it is tracked there. */
  function StrayIn(s: Shared, e: SharedEvent): multiset<bytes> {
    match e
    case Write(n) =>
      if n == 0 || n > |Piece(s)| || IsData(Piece(s)[..n]) then multiset{} else multiset{Piece(s)[..n]}
    case DuplicateStray(p) => multiset{p}
    case _ => multiset{}
  }

  function StrayOut(e: SharedEvent): multiset<bytes> {
    match e
    case DeliverStray(p) => multiset{p}
    case DropStray(p) => multiset{p}
    case _ => multiset{}
  }

  predicate IsData(p: bytes) {
    Decode(p).Ok? && !IsControl(Decode(p).value)
  }

  lemma StrayExact(c: Config, s: Shared, e: SharedEvent)
    requires Retrying(c) && NextShared(c, s, e).Some?
    ensures NextShared(c, s, e).value.stray + StrayOut(e) == s.stray + StrayIn(s, e)
    ensures e.Write? ==>
      var written := if IsData(Piece(s)[..e.n]) then multiset{Decode(Piece(s)[..e.n]).value} else multiset{};
      NextShared(c, s, e).value.link.data == s.link.data + written
  {
    hide Plan, FrameCount, Next, Encode, Decode, Piece, IsData, AfterWrite, AfterHearing, TakeStray;
    match e {
      case DeliverStray(p) => StrayBack(s.stray, p); TakeKeepsStray(s.(stray := s.stray - multiset{p}), p);
      case DropStray(p) => StrayBack(s.stray, p);
      case Write(n) => WritePuts(s, n);
      case Hear(f, n) => HearKeepsStray(c, s, f, n);
      case _ =>
    }
  }

  lemma TakeKeepsStray(s: Shared, p: bytes)
    ensures TakeStray(s, p).stray == s.stray
  {
    hide Decode, Link.React;
  }

  lemma HearKeepsStray(c: Config, s: Shared, f: Frame, n: nat)
    requires Retrying(c) && s.link.k < Count(c) && n <= |Encode(f)|
    ensures AfterHearing(c, s, f, n).stray == s.stray
  {
    hide Plan, FrameCount, Encode, DeviceJudge, Link.SequenceAt, Fill;
  }

  lemma WritePuts(s: Shared, n: nat)
    requires n <= |Piece(s)|
    ensures AfterWrite(s, n).stray == s.stray + StrayIn(s, Write(n))
    ensures AfterWrite(s, n).link.data ==
      s.link.data + if IsData(Piece(s)[..n]) then multiset{Decode(Piece(s)[..n]).value} else multiset{}
  {
    hide Encode, Decode, Piece, Fill, Sendable;
    assert s.stray + multiset{} == s.stray && s.link.data + multiset{} == s.link.data;
    if n == 0 {
      NothingIsNoData();
      assert Piece(s)[..0] == [];
    }
  }

  lemma NothingIsNoData()
    ensures !IsData([])
  {
  }

  lemma StrayBack(m: multiset<bytes>, p: bytes)
    requires p in m
    ensures m - multiset{p} + multiset{p} == m
  {
  }

  // ---------------------------------------------------------------------------
  // Safety

  /** No data frame, for the host. */
  predicate Harmless(p: bytes) {
    Decode(p).Ok? ==> IsControl(Decode(p).value)
  }

  ghost predicate AllHarmless(stray: multiset<bytes>) {
    forall p :: p in stray ==> Harmless(p)
  }

  ghost predicate SharedInv(c: Config, s: Shared)
    requires Retrying(c)
  {
    Inv(c, s.link) && AllHarmless(s.stray)
  }

  /** The buffer holds the frame the sender is on. */
  predicate Own(c: Config, s: Shared)
    requires Retrying(c) && s.link.k < Count(c)
  {
    Piece(s) == Encode(Plan(c.packet)[s.link.k])
  }

  /** The sender writes a data frame that is none it has written before, and not the one it is on. */
  ghost predicate WritesForeign(c: Config, s: Shared, e: SharedEvent)
    requires Retrying(c)
  {
    && e.Write? && s.link.k < Count(c) && e.n <= |Piece(s)|
    && var d := Decode(Piece(s)[..e.n]);
       d.Ok? && !IsControl(d.value) && !Planned(c, d.value, s.link.k + 1)
  }

  /** The steps of a sender with a buffer of its own that come to the same. */
  function Ideal(c: Config, s: Shared, e: SharedEvent): seq<Event>
    requires Retrying(c) && s.link.k <= Count(c)
  {
    match e
    case Plain(a) => [a]
    case Write(n) =>
      if s.link.k == Count(c) then []
      else
        var f := Plan(c.packet)[s.link.k];
        if n < |Piece(s)| || !Sendable(Fill(s.held)) then [Transmit, DropData(f), SenderTimeout]
        else if Own(c, s) then [Transmit]
        else [Transmit, DropData(f)]
    case Hear(f, n) =>
      if n < |Encode(f)| then (if IsControl(f) then [DropControl(f)] else []) + [SenderTimeout]
      else if IsControl(f) then [HearControl(f)]
      else []
    case HearNothing => [SenderTimeout]
    case DeliverStray(p) => if Decode(p).Err? then [ReceiverAbort] else []
    case _ => []
  }

  /** The sender writes a data frame that is not the one it is on. */
  ghost predicate WritesOther(c: Config, s: Shared, e: SharedEvent)
    requires Retrying(c)
  {
    && e.Write? && s.link.k < Count(c) && e.n <= |Piece(s)|
    && var d := Decode(Piece(s)[..e.n]);
       d.Ok? && !IsControl(d.value) && d.value != Plan(c.packet)[s.link.k]
  }

  /** Every other step is that of a sender with a buffer of its own, together with what the channel may do. */
  lemma Simulated(c: Config, s: Shared, e: SharedEvent)
    requires Retrying(c) && SharedInv(c, s) && NextShared(c, s, e).Some? && !WritesOther(c, s, e)
    ensures s.link.k <= Count(c) && Run(c, s.link, Ideal(c, s, e)) == Some(NextShared(c, s, e).value.link)
  {
    hide Plan, FrameCount, HoldsPrefix, AllPlanned, AllConfirm, Run, Next, AllHarmless, AfterWrite;
    hide AfterHearing, TakeStray;
    match e {
      case Plain(a) => RunOfOne(c, s.link, a);
      case Write(n) => WriteSimulated(c, s, n);
      case Hear(f, n) => HearSimulated(c, s, f, n);
      case HearNothing => TimeoutStep(c, s.link); RunOfOne(c, s.link, SenderTimeout);
      case DeliverStray(p) => StraySimulated(c, s, p);
      case _ => RunOfNone(c, s.link);
    }
  }

  lemma RunOfNone(c: Config, s: State)
    requires ValidConfig(c)
    ensures Run(c, s, []) == Some(s)
  {
  }

  lemma RunOfOne(c: Config, s: State, a: Event)
    requires ValidConfig(c)
    ensures Run(c, s, [a]) == Next(c, s, a)
  {
    hide Next;
    assert [a][1..] == [];
    if Next(c, s, a).Some? {
      RunOfNone(c, Next(c, s, a).value);
    }
  }

  lemma RunOfTwo(c: Config, s: State, a: Event, b: Event)
    requires ValidConfig(c) && Next(c, s, a).Some?
    ensures Run(c, s, [a, b]) == Next(c, Next(c, s, a).value, b)
  {
    hide Next;
    assert [a, b][1..] == [b];
    RunOfOne(c, Next(c, s, a).value, b);
  }

  lemma TimeoutStep(c: Config, s: State)
    requires Retrying(c) && s.sender == Waiting
    ensures Next(c, s, SenderTimeout) == Some(s.(sender := Ready))
  {
  }

  lemma DropStep(c: Config, s: State, f: Frame)
    requires ValidConfig(c)
    ensures f in s.control ==> Next(c, s, DropControl(f)) == Some(s.(control := s.control - multiset{f}))
    ensures f in s.data ==> Next(c, s, DropData(f)) == Some(s.(data := s.data - multiset{f}))
  {
  }

  lemma TransmitStep(c: Config, s: State)
    requires ValidConfig(c) && s.sender == Ready && s.tries < c.retries && s.k < Count(c)
    ensures var f := Plan(c.packet)[s.k];
      && Next(c, s, Transmit) == Some(s.(sender := Waiting, tries := s.tries + 1, data := s.data + multiset{f}))
      && s.data + multiset{f} - multiset{f} == s.data
  {
    hide Plan, FrameCount;
  }

  lemma WriteSimulated(c: Config, s: Shared, n: nat)
    requires Retrying(c) && SharedInv(c, s) && NextShared(c, s, Write(n)).Some? && !WritesOther(c, s, Write(n))
    ensures Run(c, s.link, Ideal(c, s, Write(n))) == Some(AfterWrite(s, n).link)
  {
    hide Plan, FrameCount, HoldsPrefix, AllPlanned, AllConfirm, Run, Next, AllHarmless, Inv, Encode, Decode;
    hide Fill, Outgoing, Sendable;
    var link, f := s.link, Plan(c.packet)[s.link.k];
    TransmitStep(c, link);
    var t1 := Next(c, link, Transmit).value;
    if Decode(Piece(s)[..n]).Ok? {
      PieceExact(s.held, n);
    }
    PlanIsData(c, link.k);
    DecodeEncode(f);
    assert Piece(s)[..|Piece(s)|] == Piece(s);
    if n == |Piece(s)| && Sendable(Fill(s.held)) && Own(c, s) {
      RunOfOne(c, link, Transmit);
    } else {
      DropStep(c, t1, f);
      var t2 := Next(c, t1, DropData(f)).value;
      RunOfTwo(c, link, Transmit, DropData(f));
      TimeoutStep(c, t2);
      RunOfThree(c, link, Transmit, DropData(f), SenderTimeout);
      if Decode(Piece(s)[..n]).Ok? {
        EncodeDecode(Piece(s)[..n]);
      }
    }
  }

  /** Only the whole of what the buffer holds can be a frame. */
  lemma PieceExact(held: Part, n: nat)
    requires n <= |Outgoing(Fill(held))| && Decode(Outgoing(Fill(held))[..n]).Ok?
    ensures n == |Outgoing(Fill(held))| && Sendable(Fill(held))
  {
    hide Crc16, Fill;
    var storage := Fill(held);
    var piece := Outgoing(storage)[..n];
    assert piece[3] == storage[3] && piece[4] == storage[4];
  }

  lemma PlanIsData(c: Config, k: nat)
    requires ValidConfig(c) && k < Count(c)
    ensures !IsControl(Plan(c.packet)[k])
  {
    PlanKinds(c, k);
  }

  lemma HearSimulated(c: Config, s: Shared, f: Frame, n: nat)
    requires Retrying(c) && SharedInv(c, s) && NextShared(c, s, Hear(f, n)).Some?
    ensures Run(c, s.link, Ideal(c, s, Hear(f, n))) == Some(AfterHearing(c, s, f, n).link)
  {
    hide Plan, FrameCount, HoldsPrefix, AllPlanned, AllConfirm, Run, Next, AllHarmless, Inv, Encode;
    hide DeviceJudge, Link.SequenceAt;
    var link := s.link;
    var t := link.(control := link.control - multiset{f});
    AnswerJudged(c, link, f);
    if n < |Encode(f)| {
      TimeoutStep(c, t);
      if IsControl(f) {
        DropStep(c, link, f);
        RunOfTwo(c, link, DropControl(f), SenderTimeout);
        assert [DropControl(f)] + [SenderTimeout] == [DropControl(f), SenderTimeout];
      } else {
        RunOfOne(c, link, SenderTimeout);
        assert [] + [SenderTimeout] == [SenderTimeout];
      }
    } else if IsControl(f) {
      RunOfOne(c, link, HearControl(f));
      HearStep(c, link, f);
    } else {
      RunOfNone(c, link);
    }
  }

  lemma HearStep(c: Config, s: State, f: Frame)
    requires ValidConfig(c) && s.sender == Waiting && f in s.control && s.k < Count(c)
    ensures Next(c, s, HearControl(f)) == Some(StopAndWait.Hear(c, s.(control := s.control - multiset{f}), f))
  {
    hide Plan, FrameCount, Link.Judge;
  }

  /** What the device makes of a frame it may hear is what the host would. */
  lemma AnswerJudged(c: Config, s: State, f: Frame)
    requires ValidConfig(c) && Inv(c, s) && s.k < Count(c) && (IsControl(f) ==> f in s.control)
    ensures var q := Link.SequenceAt(c.packet, s.k);
      && DeviceJudge(Fill(Encode(f)), q) == Link.Judge(f, q)
      && Link.Judge(f, q) in {Link.Unrelated, Link.Acknowledged}
      && (!IsControl(f) ==> Link.Judge(f, q) == Link.Unrelated && s.control - multiset{f} == s.control)
      && (IsControl(f) ==> exists q: byte :: f == AckFor(q))
  {
    hide Plan, FrameCount, HoldsPrefix, AllPlanned, Encode, DeviceJudge, Link.SequenceAt;
    assert Fill(Encode(f))[..|Encode(f)|] == Encode(f);
    AnswersAlike(Fill(Encode(f)), f);
    if IsControl(f) {
      ConfirmsOne(c, s.control, Taken(c, s), f);
      JudgeConfirmation(c, f, Taken(c, s), s.k);
    }
  }

  lemma StraySimulated(c: Config, s: Shared, p: bytes)
    requires Retrying(c) && SharedInv(c, s) && NextShared(c, s, DeliverStray(p)).Some?
    ensures Run(c, s.link, Ideal(c, s, DeliverStray(p))) == Some(NextShared(c, s, DeliverStray(p)).value.link)
  {
    hide Plan, FrameCount, HoldsPrefix, AllPlanned, AllConfirm, Run, Decode;
    if Decode(p).Err? {
      RunOfOne(c, s.link, ReceiverAbort);
    } else {
      RunOfNone(c, s.link);
    }
  }

  lemma StrayStays(c: Config, s: Shared, e: SharedEvent)
    requires Retrying(c) && SharedInv(c, s) && NextShared(c, s, e).Some?
    ensures AllHarmless(NextShared(c, s, e).value.stray)
  {
    hide Plan, FrameCount, HoldsPrefix, AllPlanned, AllConfirm, Next, Inv, Encode, Decode, Fill, Outgoing, Sendable;
  }

  lemma OtherWritten(c: Config, s: Shared, e: SharedEvent)
    requires Retrying(c) && SharedInv(c, s) && NextShared(c, s, e).Some? && WritesOther(c, s, e)
    ensures Inv(c, NextShared(c, s, e).value.link) <==> !WritesForeign(c, s, e)
  {
    hide Plan, FrameCount, HoldsPrefix, AllConfirm, Encode, Decode, Fill, Outgoing, Sendable, Planned, Inv;
    PieceExact(s.held, e.n);
    var g := Decode(Piece(s)[..e.n]).value;
    TransmitStep(c, s.link);
    TransmitKeepsInv(c, s.link);
    var t := Next(c, s.link, Transmit).value;
    var next := NextShared(c, s, e).value.link;
    assert next == t.(data := s.link.data + multiset{g});
    DataMatters(c, t, next);
    assert g in next.data;
    forall f | f in s.link.data ensures Planned(c, f, s.link.k + 1) {
      assert f in t.data;
      PlannedInv(c, t, f);
    }
  }

  /** Of the invariant, only one clause speaks of the data frames on their way. */
  lemma DataMatters(c: Config, t: State, u: State)
    requires ValidConfig(c) && Inv(c, t) && u == t.(data := u.data)
    ensures StopAndWait.Written(t) <= Count(c)
    ensures Inv(c, u) <==> forall f :: f in u.data ==> Planned(c, f, StopAndWait.Written(t))
  {
    hide FrameCount, HoldsPrefix, AllConfirm, Planned;
  }

  lemma PlannedInv(c: Config, t: State, f: Frame)
    requires ValidConfig(c) && Inv(c, t) && f in t.data
    ensures StopAndWait.Written(t) <= Count(c) && Planned(c, f, StopAndWait.Written(t))
  {
    hide FrameCount, HoldsPrefix, AllConfirm, Planned;
  }

  /** A step keeps the invariant if and only if it does not write a foreign data frame. */
  lemma StepExact(c: Config, s: Shared, e: SharedEvent)
    requires Retrying(c) && SharedInv(c, s) && NextShared(c, s, e).Some?
    ensures SharedInv(c, NextShared(c, s, e).value) <==> !WritesForeign(c, s, e)
  {
    hide Plan, FrameCount, NextShared, Next, Run, Inv, AllHarmless, Decode, Planned;
    StrayStays(c, s, e);
    if WritesOther(c, s, e) {
      OtherWritten(c, s, e);
    } else {
      Simulated(c, s, e);
      RunKeepsInv(c, s.link, Ideal(c, s, e));
      CurrentPlanned(c, s.link.k);
    }
  }

  lemma CurrentPlanned(c: Config, k: nat)
    requires ValidConfig(c)
    ensures k < Count(c) ==> Planned(c, Plan(c.packet)[k], k + 1)
  {
    hide Plan, FrameCount;
  }

  ghost predicate InvAllAlong(c: Config, s: Shared, events: seq<SharedEvent>)
    requires Retrying(c)
    decreases events
  {
    SharedInv(c, s)
    && (events != [] && NextShared(c, s, events[0]).Some? ==>
          InvAllAlong(c, NextShared(c, s, events[0]).value, events[1..]))
  }

  ghost predicate NeverForeign(c: Config, s: Shared, events: seq<SharedEvent>)
    requires Retrying(c)
    decreases events
  {
    events != [] && NextShared(c, s, events[0]).Some? ==>
      !WritesForeign(c, s, events[0]) && NeverForeign(c, NextShared(c, s, events[0]).value, events[1..])
  }

  /** Over a whole run: it is kept all along if and only if no foreign data frame is ever written. */
  lemma {:induction false} RunExact(c: Config, s: Shared, events: seq<SharedEvent>)
    requires Retrying(c) && SharedInv(c, s)
    ensures InvAllAlong(c, s, events) <==> NeverForeign(c, s, events)
    decreases events
  {
    hide SharedInv, NextShared, WritesForeign;
    if events != [] && NextShared(c, s, events[0]).Some? {
      var t := NextShared(c, s, events[0]).value;
      StepExact(c, s, events[0]);
      if SharedInv(c, t) {
        RunExact(c, t, events[1..]);
      } else {
        NotAllAlong(c, t, events[1..]);
      }
    }
  }

  lemma NotAllAlong(c: Config, s: Shared, events: seq<SharedEvent>)
    requires Retrying(c) && !SharedInv(c, s)
    ensures !InvAllAlong(c, s, events)
  {
  }

  lemma {:induction false} EndOfRun(c: Config, s: Shared, events: seq<SharedEvent>)
    requires Retrying(c) && InvAllAlong(c, s, events) && RunShared(c, s, events).Some?
    ensures SharedInv(c, RunShared(c, s, events).value)
    decreases events
  {
    hide SharedInv, NextShared;
    if events != [] {
      EndOfRun(c, NextShared(c, s, events[0]).value, events[1..]);
    }
  }

  // ---------------------------------------------------------------------------
  // A host that sends nothing but answers

  predicate OnlyAnswers(events: seq<SharedEvent>) {
    forall i :: 0 <= i < |events| && events[i].Hear? ==> IsControl(events[i].f)
  }

  /** The beginning of an acknowledgement, or nothing. */
  ghost predicate AnswerPart(held: Part) {
    |held| != 1 && exists q: byte :: held <= Encode(AckFor(q))
  }

  ghost predicate Fine(c: Config, s: Shared)
    requires Retrying(c)
  {
    SharedInv(c, s) && (s.link.k < Count(c) ==> Own(c, s) || AnswerPart(s.held))
  }

  /** From a buffer with such a part no data frame is written, though a write still counts as one. */
  lemma PartIsHarmless(held: Part)
    requires AnswerPart(held)
    ensures Sendable(Fill(held)) && Harmless(Outgoing(Fill(held)))
  {
    hide Crc16, Encode;
    var q: byte :| held <= Encode(AckFor(q));
    var storage, ack := Fill(held), Encode(AckFor(q));
    AckBytes(q);
    assert forall i :: 0 <= i < |held| ==> storage[i] == ack[i];
    assert forall i :: |held| <= i < MAX_SIZE && i >= 2 ==> storage[i] == 0;
    assert storage[3] == 0 && storage[4] <= 1 && storage[2] in {0, 0xF1};
  }

  lemma AckBytes(q: byte)
    ensures var ack := Encode(AckFor(q)); |ack| == 8 && ack[2] == 0xF1 && ack[3] == 0 && ack[4] == 1
  {
    hide Crc16;
  }

  /** The whole wire form of a frame, with zeros behind it, goes out as that frame. */
  lemma WholeIsOwn(f: Frame)
    ensures Outgoing(Fill(Encode(f))) == Encode(f) && Sendable(Fill(Encode(f)))
  {
    hide Encode, Outgoing, Sendable;
    assert Fill(Encode(f))[..|Encode(f)|] == Encode(f);
    AnswerStored(Fill(Encode(f)), f);
  }

  lemma OwnOrPart(c: Config, s: Shared)
    requires Retrying(c) && s.link.k < Count(c)
    ensures Own(c, s) ==> Sendable(Fill(s.held)) && Decode(Piece(s)) == Ok(Plan(c.packet)[s.link.k])
    ensures Own(c, s) ==> !Harmless(Piece(s))
  {
    hide Plan, FrameCount, Encode, Decode, Fill;
    if Own(c, s) {
      DecodeEncode(Plan(c.packet)[s.link.k]);
      PlanIsData(c, s.link.k);
      assert Piece(s)[..|Piece(s)|] == Piece(s);
      PieceExact(s.held, |Piece(s)|);
    }
  }

  lemma FineStep(c: Config, s: Shared, e: SharedEvent)
    requires Retrying(c) && Fine(c, s) && NextShared(c, s, e).Some? && (e.Hear? ==> IsControl(e.f))
    ensures !WritesForeign(c, s, e) && Fine(c, NextShared(c, s, e).value)
  {
    hide Plan, FrameCount, Encode, Decode, Fill, SharedInv, Outgoing, Sendable, Planned, AnswerPart, NextShared, Own;
    var t := NextShared(c, s, e).value;
    assert !WritesForeign(c, s, e) by {
      if e.Write? && s.link.k < Count(c) && e.n <= |Piece(s)| && Decode(Piece(s)[..e.n]).Ok? {
        OwnWrite(c, s, e.n);
      }
    }
    StepExact(c, s, e);
    HeldAfter(c, s, e);
  }

  lemma OwnWrite(c: Config, s: Shared, n: nat)
    requires Retrying(c) && Fine(c, s) && s.link.k < Count(c) && n <= |Piece(s)| && Decode(Piece(s)[..n]).Ok?
    ensures IsControl(Decode(Piece(s)[..n]).value) || Planned(c, Decode(Piece(s)[..n]).value, s.link.k + 1)
  {
    hide Plan, FrameCount, Encode, Decode, Fill, SharedInv, Outgoing, Sendable, AnswerPart;
    PieceExact(s.held, n);
    assert Piece(s)[..n] == Piece(s);
    OwnOrPart(c, s);
    CurrentPlanned(c, s.link.k);
    if !Own(c, s) {
      PartIsHarmless(s.held);
    }
  }

  lemma HeldAfter(c: Config, s: Shared, e: SharedEvent)
    requires Retrying(c) && Fine(c, s) && NextShared(c, s, e).Some? && (e.Hear? ==> IsControl(e.f))
    ensures var t := NextShared(c, s, e).value; t.link.k < Count(c) ==> Own(c, t) || AnswerPart(t.held)
  {
    hide Plan, FrameCount, Encode, Decode, Fill, Inv, AllHarmless, Outgoing, Sendable, DeviceJudge;
    hide AnswerPart, AfterHearing;
    match e {
      case Hear(f, n) => HeldAfterAnswer(c, s, f, n);
      case HearNothing => NothingIsPart();
      case Plain(a) => SameFrame(c, s.link, a);
      case _ =>
    }
  }

  lemma NothingIsPart()
    ensures AnswerPart([])
  {
    hide Encode;
    assert [] <= Encode(AckFor(0));
  }

  lemma HeldAfterAnswer(c: Config, s: Shared, f: Frame, n: nat)
    requires Retrying(c) && Fine(c, s) && NextShared(c, s, Hear(f, n)).Some? && IsControl(f)
    ensures var t := AfterHearing(c, s, f, n); t.link.k < Count(c) ==> Own(c, t) || AnswerPart(t.held)
  {
    hide Plan, FrameCount, Encode, Decode, Fill, Inv, AllHarmless, Outgoing, Sendable, DeviceJudge;
    hide Link.SequenceAt, AnswerPart;
    AnswerJudged(c, s.link, f);
    PartAfterAnswer(f, n);
    if s.link.k + 1 < Count(c) {
      WholeIsOwn(Plan(c.packet)[s.link.k + 1]);
    }
  }

  lemma SameFrame(c: Config, s: State, e: Event)
    requires ValidConfig(c) && Next(c, s, e).Some? && !e.HearControl?
    ensures Next(c, s, e).value.k == s.k
  {
    hide Plan, FrameCount, Link.React;
  }

  lemma StartIsFine(c: Config)
    requires Retrying(c)
    ensures Fine(c, Start(c))
  {
    hide Plan, FrameCount, Encode, Inv;
    InitialInv(c);
    WholeIsOwn(Plan(c.packet)[0]);
  }

  lemma {:induction false} FineRun(c: Config, s: Shared, events: seq<SharedEvent>)
    requires Retrying(c) && Fine(c, s) && OnlyAnswers(events) && RunShared(c, s, events).Some?
    ensures Fine(c, RunShared(c, s, events).value) && NeverForeign(c, s, events)
    decreases events
  {
    hide Fine, NextShared, WritesForeign;
    if events != [] {
      FineStep(c, s, events[0]);
      FineRun(c, NextShared(c, s, events[0]).value, events[1..]);
    }
  }

  /** So to a host that sends nothing but answers, what the device writes again from its shared buffer does no
      harm: over every run, whatever is lost, cut, duplicated or reordered. */
  lemma SharedSafe(c: Config, events: seq<SharedEvent>)
    requires Retrying(c) && OnlyAnswers(events) && RunShared(c, Start(c), events).Some?
    ensures Safe(c, RunShared(c, Start(c), events).value.link)
  {
    hide Inv, RunShared, Safe, Own;
    StartIsFine(c);
    FineRun(c, Start(c), events);
    InvIsSafe(c, RunShared(c, Start(c), events).value.link);
  }

  /** And to any host, as long as no foreign data frame is written. */
  lemma SafeUnlessForeign(c: Config, events: seq<SharedEvent>)
    requires Retrying(c) && NeverForeign(c, Start(c), events) && RunShared(c, Start(c), events).Some?
    ensures Safe(c, RunShared(c, Start(c), events).value.link)
  {
    hide Inv, RunShared, Safe, Own, NeverForeign, InvAllAlong;
    StartIsFine(c);
    RunExact(c, Start(c), events);
    EndOfRun(c, Start(c), events);
    InvIsSafe(c, RunShared(c, Start(c), events).value.link);
  }

  // ---------------------------------------------------------------------------
  // When a transfer can still complete

  predicate SharedCompletesBy(c: Config, s: Shared, events: seq<SharedEvent>)
    requires Retrying(c)
  {
    OnlyAnswers(events) && RunShared(c, s, events).Some? && RunShared(c, s, events).value.link.sender == Done
  }

  /** The frame the sender is on, or its acknowledgement, is on its way. */
  predicate OnItsWay(c: Config, s: State)
    requires ValidConfig(c) && s.k < Count(c)
  {
    OwnAck(c, s) in s.control || (s.receiver == Receiving && Plan(c.packet)[s.k] in s.data)
  }

  /** As for a sender with a buffer of its own, but that a write left helps only while the buffer still holds
      the frame, or to have the sender wait again for what is on its way. */
  predicate SharedOpen(c: Config, s: Shared)
    requires Retrying(c)
  {
    s.link.sender == Done
    || (&& s.link.k < Count(c)
        && (s.link.receiver == Receiving || (s.link.receiver == Returned && OwnAck(c, s.link) in s.link.control))
        && match s.link.sender
           case Ready => s.link.tries < c.retries && (Own(c, s) || OnItsWay(c, s.link))
           case Waiting => OnItsWay(c, s.link) || (s.link.tries < c.retries && Own(c, s))
           case _ => false)
  }

  lemma PartIsNotOwn(c: Config, s: Shared)
    requires Retrying(c) && s.link.k < Count(c) && AnswerPart(s.held)
    ensures !Own(c, s)
  {
    hide Plan, FrameCount, AnswerPart, Own;
    OwnOrPart(c, s);
    PartIsHarmless(s.held);
  }

  lemma OpenBeforeWrite(c: Config, s: Shared, n: nat)
    requires Retrying(c) && NextShared(c, s, Write(n)).Some? && SharedOpen(c, NextShared(c, s, Write(n)).value)
    ensures SharedOpen(c, s)
  {
    hide Plan, FrameCount, Encode, Decode, Fill, Outgoing, Sendable, Link.SequenceAt;
    var f := Plan(c.packet)[s.link.k];
    if Decode(Piece(s)[..n]) == Ok(f) {
      PieceExact(s.held, n);
      assert Piece(s)[..n] == Piece(s);
      EncodeDecode(Piece(s));
    }
  }

  lemma OpenBeforeAnswer(c: Config, s: Shared, f: Frame, n: nat)
    requires Retrying(c) && Fine(c, s) && NextShared(c, s, Hear(f, n)).Some? && IsControl(f)
    requires SharedInv(c, NextShared(c, s, Hear(f, n)).value) && SharedOpen(c, NextShared(c, s, Hear(f, n)).value)
    ensures SharedOpen(c, s)
  {
    hide Plan, FrameCount, Encode, Decode, Fill, AllHarmless, Outgoing, Sendable, DeviceJudge;
    hide Link.SequenceAt, Own, Link.Judge;
    hide HoldsPrefix, AllPlanned, AllConfirm, AnswerPart;
    var t := NextShared(c, s, Hear(f, n)).value;
    AnswerJudged(c, s.link, f);
    ConfirmsOne(c, s.link.control, Taken(c, s.link), f);
    JudgedOwn(c, f, Taken(c, s.link), s.link.k);
    FinishedOnlyAtEnd(c, t.link.rx, Taken(c, t.link));
    PartAfterAnswer(f, n);
    if t.link.k == s.link.k {
      PartIsNotOwn(c, t);
    }
  }

  lemma PartAfterAnswer(f: Frame, n: nat)
    requires n <= |Encode(f)| && n != 1 && exists q: byte :: f == AckFor(q)
    ensures AnswerPart(Encode(f)[..n])
    ensures n == |Encode(f)| ==> AnswerPart(Encode(f))
  {
    hide Encode;
    var q: byte :| f == AckFor(q);
    assert Encode(f)[..n] <= Encode(AckFor(q));
    assert Encode(f)[..|Encode(f)|] == Encode(f);
  }

  lemma WayBeforeDelivery(c: Config, s: State, f: Frame)
    requires ValidConfig(c) && Inv(c, s) && s.k < Count(c) && Next(c, s, DeliverData(f)).Some?
    ensures var t := Next(c, s, DeliverData(f)).value;
      t.k == s.k && t.sender == s.sender && t.tries == s.tries && (OnItsWay(c, t) ==> OnItsWay(c, s))
  {
    hide Plan, FrameCount, HoldsPrefix, AllPlanned, AllConfirm, Link.SequenceAt, Link.React;
    FinishedOnlyAtEnd(c, s.rx, Taken(c, s));
    var j := PlannedOne(c, s.data, StopAndWait.Written(s), f);
    ReactToPlan(c, s.rx, Taken(c, s), j);
    AcksDiffer(c, j, s.k);
  }

  lemma OpenBeforePlain(c: Config, s: Shared, a: Event)
    requires Retrying(c) && Fine(c, s) && NextShared(c, s, Plain(a)).Some?
    requires SharedOpen(c, NextShared(c, s, Plain(a)).value)
    ensures SharedOpen(c, s)
  {
    hide Plan, FrameCount, Encode, Decode, Piece, AllHarmless, Link.SequenceAt, Link.React;
    hide Link.Judge;
    hide HoldsPrefix, AllPlanned, AllConfirm, AnswerPart;
    if a.DeliverData? {
      SameFrame(c, s.link, a);
      if s.link.k < Count(c) {
        WayBeforeDelivery(c, s.link, a.f);
      }
      SameBuffer(c, s, a);
    } else {
      hide Next, Inv, SharedInv;
      OthersEffect(c, s.link, a);
      SameBuffer(c, s, a);
    }
  }

  lemma SameBuffer(c: Config, s: Shared, a: Event)
    requires Retrying(c) && NextShared(c, s, Plain(a)).Some?
    ensures Piece(NextShared(c, s, Plain(a)).value) == Piece(s)
  {
    hide Next, Outgoing, Fill;
  }

  lemma OpenBeforeStray(c: Config, s: Shared, p: bytes)
    requires Retrying(c) && Fine(c, s) && NextShared(c, s, DeliverStray(p)).Some?
    requires SharedOpen(c, NextShared(c, s, DeliverStray(p)).value)
    ensures SharedOpen(c, s)
  {
    hide Plan, FrameCount, Encode, Decode, Fill, Outgoing, Sendable, Link.SequenceAt, HoldsPrefix, AllPlanned;
    hide AllConfirm, AnswerPart;
  }

  lemma OpenBeforeSilence(c: Config, s: Shared)
    requires Retrying(c) && NextShared(c, s, HearNothing).Some?
    requires SharedOpen(c, NextShared(c, s, HearNothing).value)
    ensures SharedOpen(c, s)
  {
    hide Plan, FrameCount, Encode, Own, Link.SequenceAt, AnswerPart;
    var t := NextShared(c, s, HearNothing).value;
    NothingIsPart();
    if t.link.k < Count(c) {
      PartIsNotOwn(c, t);
    }
  }

  /** No step opens a transfer again. */
  lemma SharedOpenBefore(c: Config, s: Shared, e: SharedEvent)
    requires Retrying(c) && Fine(c, s) && NextShared(c, s, e).Some? && (e.Hear? ==> IsControl(e.f))
    requires SharedOpen(c, NextShared(c, s, e).value)
    ensures SharedOpen(c, s)
  {
    hide NextShared, SharedOpen, SharedInv, Fine;
    FineStep(c, s, e);
    FineInv(c, NextShared(c, s, e).value);
    match e {
      case Hear(f, n) => OpenBeforeAnswer(c, s, f, n);
      case Plain(a) => OpenBeforePlain(c, s, a);
      case Write(n) => OpenBeforeWrite(c, s, n);
      case HearNothing => OpenBeforeSilence(c, s);
      case DeliverStray(p) => OpenBeforeStray(c, s, p);
      case _ => SameOpen(c, s, e);
    }
  }

  lemma FineInv(c: Config, s: Shared)
    requires Retrying(c) && Fine(c, s)
    ensures SharedInv(c, s)
  {
  }

  lemma SameOpen(c: Config, s: Shared, e: SharedEvent)
    requires Retrying(c) && NextShared(c, s, e).Some? && (e.DropStray? || e.DuplicateStray?)
    ensures SharedOpen(c, NextShared(c, s, e).value) == SharedOpen(c, s)
  {
    hide Plan, FrameCount, Encode, Fill, Outgoing, Link.SequenceAt;
  }

  lemma {:induction false} SharedOpenAllAlong(c: Config, s: Shared, events: seq<SharedEvent>)
    requires Retrying(c) && Fine(c, s) && SharedCompletesBy(c, s, events)
    ensures SharedOpen(c, s)
    decreases events
  {
    hide NextShared, Fine, SharedInv, FrameCount;
    if events == [] {
      IsDone(c, s);
    } else {
      var t := NextShared(c, s, events[0]).value;
      FineStep(c, s, events[0]);
      SharedOpenAllAlong(c, t, events[1..]);
      SharedOpenBefore(c, s, events[0]);
    }
  }

  lemma IsDone(c: Config, s: Shared)
    requires Retrying(c) && s.link.sender == Done
    ensures SharedOpen(c, s) && SharedCompletesBy(c, s, [])
  {
  }

  lemma OneStepBefore(c: Config, s: Shared, e: SharedEvent, events: seq<SharedEvent>)
    requires Retrying(c) && NextShared(c, s, e).Some? && (e.Hear? ==> IsControl(e.f))
    requires SharedCompletesBy(c, NextShared(c, s, e).value, events)
    ensures SharedCompletesBy(c, s, [e] + events)
  {
    hide NextShared;
    assert ([e] + events)[0] == e && ([e] + events)[1..] == events;
  }

  /** How many steps a frame still needs, at most. */
  function StepsLeft(c: Config, s: Shared): nat
    requires Retrying(c) && s.link.k < Count(c)
  {
    match s.link.sender
    case Ready => 3
    case Waiting => if OwnAck(c, s.link) in s.link.control then 1 else if OnItsWay(c, s.link) then 2 else 4
    case _ => 0
  }

  /** The next step towards completion. */
  function Helpful(c: Config, s: Shared): SharedEvent
    requires Retrying(c) && s.link.k < Count(c)
  {
    if s.link.sender == Ready then Write(|Piece(s)|)
    else if OwnAck(c, s.link) in s.link.control then Hear(OwnAck(c, s.link), |Encode(OwnAck(c, s.link))|)
    else if OnItsWay(c, s.link) then Plain(DeliverData(Plan(c.packet)[s.link.k]))
    else Plain(SenderTimeout)
  }

  /** It keeps the transfer open and comes nearer. */
  lemma HelpfulWorks(c: Config, s: Shared)
    requires Retrying(c) && Fine(c, s) && SharedOpen(c, s) && s.link.k < Count(c)
    ensures var e := Helpful(c, s);
      && (e.Hear? ==> IsControl(e.f)) && NextShared(c, s, e).Some?
      && var t := NextShared(c, s, e).value;
      && SharedOpen(c, t)
      && (t.link.k == s.link.k + 1 || (t.link.k == s.link.k && StepsLeft(c, t) < StepsLeft(c, s)))
  {
    hide Plan, FrameCount, Encode, Decode, Fill, Outgoing, Link.SequenceAt, Link.React, Link.Judge;
    hide DeviceJudge, Inv, Sendable, AllHarmless;
    hide AnswerPart, Own, NextShared, SharedOpen, StepsLeft, SharedInv;
    FineDone(c, s);
    OpenSender(c, s);
    match Helpful(c, s) {
      case Write(n) => WriteHelps(c, s);
      case Hear(f, n) => AnswerHelps(c, s);
      case Plain(a) => if a.SenderTimeout? { TimeoutHelps(c, s); } else { DeliveryHelps(c, s); }
      case _ =>
    }
  }

  lemma OpenSender(c: Config, s: Shared)
    requires Retrying(c) && SharedOpen(c, s)
    ensures s.link.sender in {Done, Ready, Waiting}
  {
  }

  lemma TimeoutHelps(c: Config, s: Shared)
    requires Retrying(c) && SharedOpen(c, s) && s.link.k < Count(c) && s.link.sender == Waiting
    requires Helpful(c, s) == Plain(SenderTimeout)
    ensures NextShared(c, s, Plain(SenderTimeout)).Some?
    ensures var t := NextShared(c, s, Plain(SenderTimeout)).value;
      SharedOpen(c, t) && t.link.k == s.link.k && StepsLeft(c, t) < StepsLeft(c, s)
  {
    hide Plan, FrameCount, Encode, Link.SequenceAt, Link.React, Outgoing, Fill;
  }

  lemma WriteHelps(c: Config, s: Shared)
    requires Retrying(c) && Fine(c, s) && SharedOpen(c, s) && s.link.k < Count(c) && s.link.sender == Ready
    ensures var e := Helpful(c, s); NextShared(c, s, e).Some?
    ensures var t := NextShared(c, s, Helpful(c, s)).value;
      SharedOpen(c, t) && t.link.k == s.link.k && StepsLeft(c, t) < StepsLeft(c, s)
  {
    hide Plan, FrameCount, Encode, Decode, Fill, Outgoing, Link.SequenceAt, SharedInv, Sendable, AnswerPart;
    OwnOrPart(c, s);
    PlanIsData(c, s.link.k);
    assert Piece(s)[..|Piece(s)|] == Piece(s);
    if !Own(c, s) {
      PartIsHarmless(s.held);
    }
  }

  lemma DeliveryHelps(c: Config, s: Shared)
    requires Retrying(c) && Fine(c, s) && SharedOpen(c, s) && s.link.k < Count(c) && s.link.sender == Waiting
    requires OwnAck(c, s.link) !in s.link.control && OnItsWay(c, s.link)
    ensures NextShared(c, s, Helpful(c, s)).Some?
    ensures var t := NextShared(c, s, Helpful(c, s)).value;
      SharedOpen(c, t) && t.link.k == s.link.k && StepsLeft(c, t) < StepsLeft(c, s)
  {
    hide Plan, FrameCount, Encode, Fill, Outgoing, Link.SequenceAt, Sendable, AnswerPart, HoldsPrefix;
    hide AllPlanned, AllConfirm, Link.React;
    FinishedOnlyAtEnd(c, s.link.rx, Taken(c, s.link));
    ReactToPlan(c, s.link.rx, Taken(c, s.link), s.link.k);
  }

  lemma AnswerHelps(c: Config, s: Shared)
    requires Retrying(c) && Fine(c, s) && SharedOpen(c, s) && s.link.k < Count(c) && s.link.sender == Waiting
    requires OwnAck(c, s.link) in s.link.control
    ensures IsControl(OwnAck(c, s.link)) && NextShared(c, s, Helpful(c, s)).Some?
    ensures var t := NextShared(c, s, Helpful(c, s)).value;
      SharedOpen(c, t) && t.link.k == s.link.k + 1
  {
    hide Plan, FrameCount, Encode, Fill, Outgoing, Link.SequenceAt, Sendable, AnswerPart, HoldsPrefix;
    hide AllPlanned, AllConfirm, Link.React;
    hide Link.Judge, DeviceJudge;
    var f := OwnAck(c, s.link);
    AckBytes(Link.SequenceAt(c.packet, s.link.k));
    AnswerJudged(c, s.link, f);
    JudgeOwnAck(c, s.link.k);
    ConfirmsOne(c, s.link.control, Taken(c, s.link), f);
    JudgeConfirmation(c, f, Taken(c, s.link), s.link.k);
    FinishedOnlyAtEnd(c, s.link.rx, Taken(c, s.link));
    if s.link.k + 1 < Count(c) {
      WholeIsOwn(Plan(c.packet)[s.link.k + 1]);
    }
  }

  /** From an open state the transfer can be completed. */
  lemma {:induction false} CompleteShared(c: Config, s: Shared) returns (events: seq<SharedEvent>)
    requires Retrying(c) && Fine(c, s) && SharedOpen(c, s)
    ensures SharedCompletesBy(c, s, events)
    decreases Count(c) - s.link.k, if s.link.k < Count(c) then StepsLeft(c, s) else 0
  {
    hide NextShared, Fine, SharedInv, FrameCount, StepsLeft, Helpful, SharedCompletesBy;
    FineDone(c, s);
    if s.link.k == Count(c) {
      IsDone(c, s);
      return [];
    }
    var e := Helpful(c, s);
    HelpfulWorks(c, s);
    FineStep(c, s, e);
    var t := NextShared(c, s, e).value;
    FineDone(c, t);
    events := CompleteShared(c, t);
    OneStepBefore(c, s, e, events);
    events := [e] + events;
  }

  lemma FineDone(c: Config, s: Shared)
    requires Retrying(c) && Fine(c, s)
    ensures s.link.k <= Count(c) && (s.link.sender == Done <==> s.link.k == Count(c))
  {
    hide FrameCount, HoldsPrefix, AllPlanned, AllConfirm, Own, AnswerPart, AllHarmless;
  }

  /** Whatever has happened so far: with a host that sends nothing but answers, the transfer can still complete
      if and only if it is open. */
  lemma SharedCompletableExact(c: Config, s: Shared)
    requires Retrying(c) && Fine(c, s)
    ensures (exists events :: SharedCompletesBy(c, s, events)) <==> SharedOpen(c, s)
  {
    hide Fine, SharedOpen, SharedCompletesBy;
    if SharedOpen(c, s) {
      var events := CompleteShared(c, s);
    }
    forall events | SharedCompletesBy(c, s, events) ensures SharedOpen(c, s) {
      SharedOpenAllAlong(c, s, events);
    }
  }

  /** What sharing the buffer costs: exactly when a sender with a buffer of its own, all else being the same,
      could still complete and the device cannot. Writes are left and the receiver is there, but neither the
      frame nor its acknowledgement is on its way, and the buffer no longer holds the frame. */
  lemma CostExact(c: Config, s: Shared)
    requires Retrying(c) && Fine(c, s)
    ensures
      ((exists events :: CompletesBy(c, s.link, events)) && !(exists events :: SharedCompletesBy(c, s, events))) <==>
      (&& s.link.k < Count(c) && s.link.sender in {Ready, Waiting} && s.link.tries < c.retries
       && s.link.receiver == Receiving && !OnItsWay(c, s.link) && !Own(c, s))
  {
    hide Own, CompletesBy, SharedCompletesBy, Inv, Plan, FrameCount, Link.SequenceAt, AnswerPart;
    CompletableExact(c, s.link);
    SharedCompletableExact(c, s);
    FineDone(c, s);
  }

  // ---------------------------------------------------------------------------
  // A host that sends data of its own

  const OWN: Frame := FrameOf(Single, [7])
  const PEER: Frame := FrameOf(Single, [9])

  /** The frame is written and lost; the host's own data frame comes in and is kept; the wait ends; the buffer
      is written again, the host takes its own frame for the packet, and its answer fits. */
  function EchoRun(): seq<SharedEvent> {
    [Write(8), Hear(PEER, 8), Plain(SenderTimeout), Write(8),
     Plain(DeliverData(PEER)), Hear(AckFor(SINGLE_SEQUENCE), 8)]
  }

  lemma {:induction false} ChainOf(c: Config, states: seq<Shared>, events: seq<SharedEvent>)
    requires Retrying(c) && |states| == |events| + 1
    requires forall i :: 0 <= i < |events| ==> NextShared(c, states[i], events[i]) == Some(states[i + 1])
    ensures RunShared(c, states[0], events) == Some(states[|events|])
    decreases |events|
  {
    hide NextShared;
    if events != [] {
      var rest, later := events[1..], states[1..];
      forall i | 0 <= i < |rest| ensures NextShared(c, later[i], rest[i]) == Some(later[i + 1]) {
        assert NextShared(c, states[i + 1], events[i + 1]) == Some(states[i + 2]);
      }
      ChainOf(c, later, rest);
    }
  }

  /** A write of a data frame the buffer holds. */
  lemma WritesFrame(c: Config, s: Shared, f: Frame)
    requires Retrying(c) && s.link.sender == Ready && s.link.tries < c.retries && s.link.k < Count(c)
    requires s.held == Encode(f) && !IsControl(f)
    ensures NextShared(c, s, Write(|Encode(f)|)) ==
      Some(s.(link := s.link.(sender := Waiting, tries := s.link.tries + 1, data := s.link.data + multiset{f})))
  {
    hide Encode, Decode, Fill, Outgoing, Sendable, FrameCount;
    WholeIsOwn(f);
    DecodeEncode(f);
    assert Piece(s)[..|Encode(f)|] == Encode(f);
  }

  /** A read of a whole frame that is data, or acknowledges the last frame. */
  lemma HearsWhole(c: Config, s: Shared, f: Frame)
    requires Retrying(c) && s.link.sender == Waiting && s.link.k + 1 == Count(c)
    requires if IsControl(f) then f == AckFor(Link.SequenceAt(c.packet, s.link.k)) && f in s.link.control
             else f !in s.link.control
    ensures NextShared(c, s, Hear(f, |Encode(f)|)) ==
      Some(Shared(if IsControl(f)
                  then s.link.(k := Count(c), tries := 0, sender := Done, control := s.link.control - multiset{f})
                  else s.link, Encode(f), s.stray))
  {
    hide Encode, FrameCount, DeviceJudge, Link.SequenceAt;
    assert Fill(Encode(f))[..|Encode(f)|] == Encode(f);
    AnswersAlike(Fill(Encode(f)), f);
    assert !IsControl(f) ==> s.link.control - multiset{f} == s.link.control;
    assert Encode(f)[..|Encode(f)|] == Encode(f);
  }

  lemma WaitEnds(c: Config, s: Shared)
    requires Retrying(c) && s.link.sender == Waiting
    ensures NextShared(c, s, Plain(SenderTimeout)) == Some(s.(link := s.link.(sender := Ready)))
  {
  }

  lemma TakesPeer(c: Config, s: Shared) returns (t: Shared)
    requires c == Config([7], 2048, 3, true) && Retrying(c)
    requires s.link.rx == Fresh(2048) && s.link.receiver == Receiving && PEER in s.link.data
    ensures NextShared(c, s, Plain(DeliverData(PEER))) == Some(t)
    ensures t.link == s.link.(data := t.link.data, rx := t.link.rx, receiver := Returned,
                              control := s.link.control + multiset{AckFor(SINGLE_SEQUENCE)})
    ensures t.held == s.held && t.stray == s.stray && t.link.rx.buffer == [9]
  {
    hide FrameCount;
    t := NextShared(c, s, Plain(DeliverData(PEER))).value;
  }

  /** Then both ends report success, and the host holds what it had sent itself. */
  lemma EchoIsTaken()
    ensures var c := Config([7], 2048, 3, true);
      && Retrying(c) && RunShared(c, Start(c), EchoRun()).Some?
      && var s := RunShared(c, Start(c), EchoRun()).value.link;
      && s.sender == Done && s.receiver == Returned && s.rx.buffer == [9] && !Safe(c, s)
  {
    hide Encode, Decode, Fill, Outgoing, Sendable, NextShared, RunShared, DeviceJudge, Accept;
    var c := Config([7], 2048, 3, true);
    var s0 := Start(c);
    assert Count(c) == 1 && Plan(c.packet) == [OWN];
    var own, peer, ack := multiset{OWN}, multiset{PEER}, multiset{AckFor(SINGLE_SEQUENCE)};
    var rx := Fresh(2048);
    assert s0 == Shared(State(0, 0, Ready, rx, Receiving, multiset{}, multiset{}), Encode(OWN), multiset{});
    var s1 := Shared(State(0, 1, Waiting, rx, Receiving, own, multiset{}), Encode(OWN), multiset{});
    assert s0.link.data + own == own;
    WritesFrame(c, s0, OWN);
    var s2 := s1.(held := Encode(PEER));
    HearsWhole(c, s1, PEER);
    var s3 := s2.(link := s2.link.(sender := Ready));
    WaitEnds(c, s2);
    var s4 := Shared(State(0, 2, Waiting, rx, Receiving, own + peer, multiset{}), Encode(PEER), multiset{});
    WritesFrame(c, s3, PEER);
    var s5 := TakesPeer(c, s4);
    var s6 := s5.(held := Encode(AckFor(SINGLE_SEQUENCE)),
                  link := s5.link.(k := 1, tries := 0, sender := Done, control := multiset{}));
    HearsWhole(c, s5, AckFor(SINGLE_SEQUENCE));
    var states, events := [s0, s1, s2, s3, s4, s5, s6], EchoRun();
    forall i | 0 <= i < |events| ensures NextShared(c, states[i], events[i]) == Some(states[i + 1]) {
      assert i in {0, 1, 2, 3, 4, 5};
    }
    ChainOf(c, states, events);
  }

  // ---------------------------------------------------------------------------
  // The device's retry loop takes these steps

  /** What was read began `frames`, one each, or nothing. */
  ghost predicate HeardOf(heard: seq<Heard>, frames: seq<Frame>) {
    && |frames| == |heard| && AllHeard(heard)
    && forall i :: 0 <= i < |heard| ==> heard[i].part <= Encode(frames[i])
  }

  /** One read, as a step. */
  function ReadStep(h: Heard, f: Frame): SharedEvent {
    if h.part == [] then HearNothing else Hear(f, |h.part|)
  }

  function ReadSteps(heard: seq<Heard>, frames: seq<Frame>): seq<SharedEvent>
    requires |frames| == |heard|
  {
    if heard == [] then []
    else ReadSteps(heard[..|heard| - 1], frames[..|heard| - 1]) + [ReadStep(heard[|heard| - 1], frames[|heard| - 1])]
  }

  /** A wait: its reads, and the timeout if none of them ended it. */
  function WaitSteps(heard: seq<Heard>, frames: seq<Frame>, sequence: byte): seq<SharedEvent>
    requires |frames| == |heard|
  {
    ReadSteps(heard, frames) + if WaitCode(heard, sequence) == -5 then [Plain(SenderTimeout)] else []
  }

  /** One attempt: the write, and the wait if all of it went out. */
  function AttemptSteps(a: Attempt, frames: seq<Frame>, sequence: byte): seq<SharedEvent>
    requires |frames| == |a.heard|
  {
    [Write(|a.wrote|)] + if a.ok then WaitSteps(a.heard, frames, sequence) else []
  }

  lemma {:induction false} RunSnoc(c: Config, s: Shared, events: seq<SharedEvent>, e: SharedEvent)
    requires Retrying(c)
    ensures RunShared(c, s, events + [e]) ==
      match RunShared(c, s, events) case None => None case Some(t) => NextShared(c, t, e)
    decreases events
  {
    hide NextShared;
    var all := events + [e];
    if events == [] {
      assert all == [e] && [e][1..] == [];
    } else {
      assert all[0] == events[0] && all[1..] == events[1..] + [e];
      if NextShared(c, s, events[0]).Some? {
        RunSnoc(c, NextShared(c, s, events[0]).value, events[1..], e);
      }
    }
  }

  /** What one read leads to. */
  lemma ReadFollows(c: Config, s: Shared, h: Heard, f: Frame)
    requires Retrying(c) && s.link.k < Count(c) && WellHeard(h) && h.part <= Encode(f)
    requires NextShared(c, s, ReadStep(h, f)).Some?
    ensures s.link.sender == Waiting
    ensures var t, q := NextShared(c, s, ReadStep(h, f)).value, Link.SequenceAt(c.packet, s.link.k);
      if h.complete && Verdict(h, q) == Link.Acknowledged then
        t.link.k == s.link.k + 1 && t.link.tries == 0 && t.link.sender == if t.link.k == Count(c) then Done else Ready
      else
        && t.link.k == s.link.k && t.link.tries == s.link.tries && Fill(t.held) == Fill(h.part)
        && t.link.sender == if h.complete && Verdict(h, q) == Link.Unrelated then Waiting else Ready
  {
    hide Plan, FrameCount, Encode, DeviceJudge, Link.SequenceAt, U16At, Quiet, FirstMagic, Fill;
    EncodeStarts(f);
    WholePrefix(h.part, f);
    assert Encode(f)[..|h.part|] == h.part;
  }

  lemma WholePrefix(part: bytes, f: Frame)
    requires part <= Encode(f)
    ensures WholeFrame(part) <==> part == Encode(f)
  {
    hide Encode;
    EncodeStarts(f);
    if |part| >= HEADER_SIZE {
      assert part[3] == Encode(f)[3] && part[4] == Encode(f)[4];
    }
  }

  /** The answers a read takes out of the channel. */
  function TakenBy(h: Heard, f: Frame): multiset<Frame> {
    if h.part != [] && IsControl(f) then multiset{f} else multiset{}
  }

  function ControlAfter(control: multiset<Frame>, heard: seq<Heard>, frames: seq<Frame>): multiset<Frame>
    requires |frames| == |heard|
  {
    if heard == [] then control
    else
      var n := |heard| - 1;
      ControlAfter(control, heard[..n], frames[..n]) - TakenBy(heard[n], frames[n])
  }

  /** The channel holds every answer when it is read. */
  ghost predicate Supplied(control: multiset<Frame>, heard: seq<Heard>, frames: seq<Frame>) {
    && |frames| == |heard|
    && forall i :: 0 <= i < |heard| ==>
         TakenBy(heard[i], frames[i]) <= ControlAfter(control, heard[..i], frames[..i])
  }

  /** Nothing but answers comes back from the host. */
  predicate OnlyControl(control: multiset<Frame>) {
    forall f :: f in control ==> IsControl(f)
  }

  lemma ReadPossible(c: Config, s: Shared, h: Heard, f: Frame)
    requires Retrying(c) && s.link.k < Count(c) && s.link.sender == Waiting && WellHeard(h) && h.part <= Encode(f)
    requires TakenBy(h, f) <= s.link.control && OnlyControl(s.link.control)
    ensures NextShared(c, s, ReadStep(h, f)).Some?
    ensures var t := NextShared(c, s, ReadStep(h, f)).value;
      t.link.control == s.link.control - TakenBy(h, f) && OnlyControl(t.link.control)
  {
    hide Plan, FrameCount, Encode, DeviceJudge, Link.SequenceAt, U16At, Quiet, FirstMagic, Fill;
    if h.part != [] && IsControl(f) {
      assert f in TakenBy(h, f);
    }
    assert f !in s.link.control ==> s.link.control - multiset{f} == s.link.control;
    assert s.link.control - multiset{} == s.link.control;
  }

  lemma {:induction false} ReadsFollow(c: Config, s: Shared, heard: seq<Heard>, frames: seq<Frame>)
    requires Retrying(c) && s.link.k < Count(c) && s.link.sender == Waiting && HeardOf(heard, frames)
    requires Unrelated(heard, Link.SequenceAt(c.packet, s.link.k))
    requires OnlyControl(s.link.control) && Supplied(s.link.control, heard, frames)
    ensures RunShared(c, s, ReadSteps(heard, frames)).Some?
    ensures var t := RunShared(c, s, ReadSteps(heard, frames)).value;
      && t.link.k == s.link.k && t.link.tries == s.link.tries && t.link.sender == Waiting
      && Fill(t.held) == Left(Fill(s.held), heard)
      && t.link.control == ControlAfter(s.link.control, heard, frames) && OnlyControl(t.link.control)
    decreases |heard|
  {
    hide FrameCount, Link.SequenceAt, NextShared, Fill, ReadStep, Verdict, WellHeard, Encode;
    hide Supplied, TakenBy, OnlyControl;
    if heard != [] {
      var n := |heard| - 1;
      var before := ReadSteps(heard[..n], frames[..n]);
      RunSnoc(c, s, before, ReadStep(heard[n], frames[n]));
      SuppliedBefore(s.link.control, heard, frames, n);
      SuppliedAt(s.link.control, heard, frames, n);
      ReadsFollow(c, s, heard[..n], frames[..n]);
      var t := RunShared(c, s, before).value;
      ReadPossible(c, t, heard[n], frames[n]);
      ReadFollows(c, t, heard[n], frames[n]);
    }
  }

  lemma SuppliedBefore(control: multiset<Frame>, heard: seq<Heard>, frames: seq<Frame>, n: nat)
    requires Supplied(control, heard, frames) && n <= |heard|
    ensures Supplied(control, heard[..n], frames[..n])
  {
    hide ControlAfter, TakenBy;
    forall i | 0 <= i < n
      ensures TakenBy(heard[..n][i], frames[..n][i]) <= ControlAfter(control, heard[..n][..i], frames[..n][..i])
    {
      assert heard[..n][..i] == heard[..i] && frames[..n][..i] == frames[..i];
    }
  }

  lemma {:induction false} WaitFollows(c: Config, s: Shared, heard: seq<Heard>, frames: seq<Frame>)
    requires Retrying(c) && s.link.k < Count(c) && s.link.sender == Waiting && HeardOf(heard, frames)
    requires heard != [] ==> Unrelated(heard[..|heard| - 1], Link.SequenceAt(c.packet, s.link.k))
    requires OnlyControl(s.link.control) && Supplied(s.link.control, heard, frames)
    ensures RunShared(c, s, WaitSteps(heard, frames, Link.SequenceAt(c.packet, s.link.k))).Some?
    ensures var q := Link.SequenceAt(c.packet, s.link.k);
      var t := RunShared(c, s, WaitSteps(heard, frames, q)).value;
      if heard != [] && Verdict(heard[|heard| - 1], q) == Link.Acknowledged then
        t.link.k == s.link.k + 1 && t.link.tries == 0 && t.link.sender == if t.link.k == Count(c) then Done else Ready
      else
        && t.link.k == s.link.k && t.link.tries == s.link.tries && t.link.sender == Ready
        && Fill(t.held) == Left(Fill(s.held), heard)
  {
    hide FrameCount, Link.SequenceAt, NextShared, Fill, ReadStep, DeviceJudge, WellHeard, Encode, RunShared, Supplied;
    hide ControlAfter;
    var q := Link.SequenceAt(c.packet, s.link.k);
    var steps := ReadSteps(heard, frames);
    if WaitCode(heard, q) == -5 {
      RunSnoc(c, s, steps, Plain(SenderTimeout));
      if heard != [] {
        UnrelatedEnd(heard, q);
      }
      ReadsFollow(c, s, heard, frames);
      WaitEnds(c, RunShared(c, s, steps).value);
    } else {
      var n := |heard| - 1;
      assert steps + [] == steps;
      var before := ReadSteps(heard[..n], frames[..n]);
      RunSnoc(c, s, before, ReadStep(heard[n], frames[n]));
      SuppliedBefore(s.link.control, heard, frames, n);
      ReadsFollow(c, s, heard[..n], frames[..n]);
      var t := RunShared(c, s, before).value;
      SuppliedAt(s.link.control, heard, frames, n);
      ReadPossible(c, t, heard[n], frames[n]);
      ReadFollows(c, t, heard[n], frames[n]);
    }
  }

  lemma SuppliedAt(control: multiset<Frame>, heard: seq<Heard>, frames: seq<Frame>, n: nat)
    requires Supplied(control, heard, frames) && n < |heard|
    ensures TakenBy(heard[n], frames[n]) <= ControlAfter(control, heard[..n], frames[..n])
  {
  }

  /** If the last read did not end the wait, it too concerned another frame. */
  lemma {:induction false} UnrelatedEnd(heard: seq<Heard>, sequence: byte)
    requires heard != [] && AllHeard(heard) && Unrelated(heard[..|heard| - 1], sequence)
    requires WaitCode(heard, sequence) == -5
    ensures Unrelated(heard, sequence)
  {
    hide WellHeard, Verdict;
    UnrelatedAt(heard, |heard| - 1, sequence);
  }

  /** An attempt of the device's retry loop, from a buffer that holds what the step system says, which read nothing
      but what the channel holds and data of the host: it is a run of the step system. They succeed together, and
      otherwise leave the same in the buffer. */
  lemma {:induction false} AttemptFollows(c: Config, s: Shared, a: Attempt, frames: seq<Frame>)
    requires Retrying(c) && s.link.k < Count(c) && HeardOf(a.heard, frames)
    requires Attempted(Fill(s.held), a, Link.SequenceAt(c.packet, s.link.k))
    requires s.link.sender == Ready && s.link.tries < c.retries
    requires OnlyControl(s.link.control) && Supplied(s.link.control, a.heard, frames)
    ensures RunShared(c, s, AttemptSteps(a, frames, Link.SequenceAt(c.packet, s.link.k))).Some?
    ensures var q := Link.SequenceAt(c.packet, s.link.k);
      var t := RunShared(c, s, AttemptSteps(a, frames, q)).value;
      if Succeeded(a, q) then
        t.link.k == s.link.k + 1 && t.link.tries == 0 && t.link.sender == if t.link.k == Count(c) then Done else Ready
      else
        && t.link.k == s.link.k && t.link.tries == s.link.tries + 1 && t.link.sender == Ready
        && Fill(t.held) == Left(Fill(s.held), a.heard)
  {
    hide FrameCount, Link.SequenceAt, Fill, ReadStep, Verdict, WellHeard, Encode, RunShared, Decode, Outgoing;
    hide Sendable, Steady;
    hide DeviceUart.GaveUp, Spent, Rest, Plan, WaitCode, WaitSteps;
    var q := Link.SequenceAt(c.packet, s.link.k);
    var write, rest := Write(|a.wrote|), if a.ok then WaitSteps(a.heard, frames, q) else [];
    RunFirst(c, s, write, rest);
    var t := NextShared(c, s, write).value;
    if a.ok {
      WaitFollows(c, t, a.heard, frames);
    }
  }

  lemma RunFirst(c: Config, s: Shared, e: SharedEvent, rest: seq<SharedEvent>)
    requires Retrying(c) && NextShared(c, s, e).Some?
    ensures RunShared(c, s, [e] + rest) == RunShared(c, NextShared(c, s, e).value, rest)
    ensures rest == [] ==> RunShared(c, s, [e] + rest) == NextShared(c, s, e)
  {
    hide NextShared;
    assert ([e] + rest)[0] == e && ([e] + rest)[1..] == rest;
  }
}
