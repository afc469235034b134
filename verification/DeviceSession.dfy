/** The device's session: its API calls as steps of a state, the class that performs them, and what
    every sequence of calls keeps (device/src/factory_session.c). */
module DeviceSession {
  import opened Bytes
  import opened Session

  datatype SessionEvent = EventOpened | EventClosed | EventError

  /** The static session context, the notifications made since the last initialisation, and the packets that
      the link has got across. */
  datatype DeviceState = DeviceState(
    isOpened: bool, isError: bool, hasSessionId: bool, sessionId: bytes, requireAuth: bool,
    events: seq<SessionEvent>, outbound: seq<bytes>)

  const NO_ID: bytes := [0, 0, 0, 0, 0, 0, 0, 0, 0, 0, 0, 0, 0, 0, 0, 0]

  /** What `receive_one_packet` can bring back. */
  datatype Received = LinkFailed(code: int) | Got(packet: bytes)

  function Context(s: DeviceState): DeviceContext {
    DeviceContext(s.isOpened, s.hasSessionId, s.sessionId)
  }

  function Notify(s: DeviceState, e: SessionEvent): DeviceState {
    s.(events := s.events + [e])
  }

  function Clear(s: DeviceState, keepAuth: bool): DeviceState {
    DeviceState(false, false, false, NO_ID, keepAuth && s.requireAuth, s.events, s.outbound)
  }

  function CloseAndNotify(s: DeviceState): DeviceState {
    if s.isOpened || s.hasSessionId then Notify(Clear(s, false), EventClosed) else Clear(s, false)
  }

  function SetError(s: DeviceState): DeviceState {
    Notify(s.(isError := true), EventError)
  }

  /** `session_wait_pc_hello`; the open timeout is the end of the list. */
  function AwaitHello(s: DeviceState, waits: seq<Received>): (int, DeviceState)
    decreases waits
  {
    if waits == [] then (-4, s)
    else match waits[0]
      case LinkFailed(code) => if code == -4 then AwaitHello(s, waits[1..]) else (-1, s)
      case Got(packet) =>
        match ParsePacketView(Context(s), packet, false)
        case Err(_) => AwaitHello(s, waits[1..])
        case Ok(view) =>
          if view.code == 0x12 || view.code == 0x22 then (-2, CloseAndNotify(s))
          else if view.code != 0x10 then AwaitHello(s, waits[1..])
          else match ParsePcHello(view.payload)
            case Err(_) => (-3, s)
            case Ok(id) => (0, s.(sessionId := id, hasSessionId := true))
  }

  /** One API call with everything the outside contributes to it. `uuid` is what the platform returns,
      `sent` whether the link gets the packet across. */
  datatype Call =
    | CallOpen(requireAuth: bool, uuid: Option<bytes>, sent: bool, waits: seq<Received>)
    | CallClose(sent: bool)
    | CallSend(data: bytes, sent: bool)
    | CallReceive(room: nat, received: Received)

  /** The return code, the payload handed to the caller, and the new state. */
  datatype Outcome = Outcome(code: int, data: bytes, next: DeviceState)

  /** `send_packet`, with the link's outcome: the packet that is built gets across, or not. */
  function SendPacket(s: DeviceState, code: byte, payload: bytes, sent: bool): Option<DeviceState> {
    var packet := BuildPacket(Context(s), code, 0, payload, PACKET_MAX_SIZE);
    if packet.Err? || !sent then None else Some(s.(outbound := s.outbound + [packet.value]))
  }

  /** `session_send_device_hello`. */
  function SendHello(s: DeviceState, uuid: Option<bytes>, sent: bool): Option<DeviceState> {
    if uuid.None? || BuildDeviceHello(uuid.value, s.requireAuth).Err? then None
    else SendPacket(s, 0x20, BuildDeviceHello(uuid.value, s.requireAuth).value, sent)
  }

  function OpenCall(s: DeviceState, requireAuth: bool, uuid: Option<bytes>, sent: bool, waits: seq<Received>): Outcome {
    if s.isOpened then Outcome(0, [], s)
    else
      var t := Clear(s, true).(requireAuth := requireAuth);
      match SendHello(t, uuid, sent)
      case None => Outcome(-1, [], SetError(Clear(t, false)))
      case Some(greeted) =>
        var (code, u) := AwaitHello(greeted, waits);
        if code != 0 then Outcome(-2, [], SetError(Clear(u, false)))
        else Outcome(0, [], Notify(u.(isOpened := true, isError := false), EventOpened))
  }

  function CloseCall(s: DeviceState, sent: bool): Outcome {
    if !s.isOpened && !s.hasSessionId then Outcome(0, [], Clear(s, false))
    else match SendPacket(s, 0x21, [], sent)
      case None => Outcome(0, [], CloseAndNotify(s))
      case Some(t) => Outcome(0, [], CloseAndNotify(t))
  }

  function SendCall(s: DeviceState, data: bytes, sent: bool): Outcome {
    if !s.isOpened then Outcome(-2, [], s)
    else match SendPacket(s, 0x01, data, sent)
      case None => Outcome(-3, [], SetError(s))
      case Some(t) => Outcome(0, [], t)
  }

  function ReceiveCall(s: DeviceState, room: nat, received: Received): Outcome {
    if !s.isOpened then Outcome(-2, [], s)
    else if received.LinkFailed? then Outcome(-3, [], SetError(s))
    else match ParsePacketView(Context(s), received.packet, true)
      case Err(_) => Outcome(-4, [], s)
      case Ok(view) =>
        if view.code == 0x12 || view.code == 0x22 then Outcome(-5, [], CloseAndNotify(s))
        else if view.code == 0x11 || view.code == 0x21 then Outcome(0, [], CloseAndNotify(s))
        else if room < |view.payload| then Outcome(-6, [], s)
        else Outcome(0, view.payload, s)
  }

  function Step(s: DeviceState, call: Call): Outcome {
    match call
    case CallOpen(requireAuth, uuid, sent, waits) => OpenCall(s, requireAuth, uuid, sent, waits)
    case CallClose(sent) => CloseCall(s, sent)
    case CallSend(data, sent) => SendCall(s, data, sent)
    case CallReceive(room, received) => ReceiveCall(s, room, received)
  }

  /** The state right after `factory_session_init`. */
  function Initial(): DeviceState {
    DeviceState(false, false, false, NO_ID, false, [], [])
  }

  function RunCalls(s: DeviceState, calls: seq<Call>): DeviceState
    decreases calls
  {
    if calls == [] then s else RunCalls(Step(s, calls[0]).next, calls[1..])
  }

  // ---------------------------------------------------------------------------
  // The class

  class DeviceSession {
    var isOpened: bool
    var isError: bool
    var hasSessionId: bool
    var sessionId: bytes
    var requireAuth: bool
    var events: seq<SessionEvent>
    var outbound: seq<bytes>

    ghost function View(): DeviceState
      reads this
    {
      DeviceState(isOpened, isError, hasSessionId, sessionId, requireAuth, events, outbound)
    }

    /** `factory_session_init`. */
    constructor ()
      ensures View() == Initial()
    {
      isOpened, isError, hasSessionId, sessionId, requireAuth := false, false, false, NO_ID, false;
      events, outbound := [], [];
    }

    method ClearState(keepAuth: bool)
      modifies this
      ensures View() == Clear(old(View()), keepAuth)
    {
      var auth := requireAuth;
      isOpened, isError, hasSessionId := false, false, false;
      sessionId := NO_ID;
      requireAuth := keepAuth && auth;
    }

    method CloseWithEvent()
      modifies this
      ensures View() == CloseAndNotify(old(View()))
    {
      var hadSession := isOpened || hasSessionId;
      ClearState(false);
      if hadSession {
        events := events + [EventClosed];
      }
    }

    method SetErrorFlag()
      modifies this
      ensures View() == SetError(old(View()))
    {
      isError := true;
      events := events + [EventError];
    }

    /** `send_packet`; `sent` is whether the link gets the packet across. */
    method SendOut(code: byte, payload: bytes, sent: bool) returns (ok: bool)
      modifies this
      ensures var t := SendPacket(old(View()), code, payload, sent);
        ok == t.Some? && View() == if ok then t.value else old(View())
    {
      hide BuildPacket;
      var packet := BuildPacket(DeviceContext(isOpened, hasSessionId, sessionId), code, 0, payload, PACKET_MAX_SIZE);
      if packet.Err? || !sent {
        return false;
      }
      outbound := outbound + [packet.value];
      ok := true;
    }

    method WaitPcHello(waits: seq<Received>) returns (code: int)
      modifies this
      ensures (code, View()) == AwaitHello(old(View()), waits)
    {
      var i := 0;
      while i < |waits|
        invariant 0 <= i <= |waits| && View() == old(View())
        invariant AwaitHello(old(View()), waits) == AwaitHello(View(), waits[i..])
      {
        var w := waits[i];
        assert waits[i..][0] == w && waits[i..][1..] == waits[i + 1..];
        i := i + 1;
        if w.LinkFailed? {
          if w.code == -4 {
            continue;
          }
          return -1;
        }
        var parsed := ParsePacketView(DeviceContext(isOpened, hasSessionId, sessionId), w.packet, false);
        if parsed.Err? {
          continue;
        }
        if parsed.value.code == 0x12 || parsed.value.code == 0x22 {
          CloseWithEvent();
          return -2;
        }
        if parsed.value.code != 0x10 {
          continue;
        }
        var id := ParsePcHello(parsed.value.payload);
        if id.Err? {
          return -3;
        }
        sessionId, hasSessionId := id.value, true;
        return 0;
      }
      code := -4;
    }

    /** `factory_session_open`. */
    method Open(auth: bool, uuid: Option<bytes>, sent: bool, waits: seq<Received>) returns (code: int)
      modifies this
      ensures var o := Step(old(View()), CallOpen(auth, uuid, sent, waits)); code == o.code && View() == o.next
    {
      hide AwaitHello, SendPacket;
      if isOpened {
        return 0;
      }
      ClearState(true);
      requireAuth := auth;
      var ok := false;
      if uuid.Some? {
        var payload := BuildDeviceHello(uuid.value, requireAuth);
        if payload.Ok? {
          ok := SendOut(0x20, payload.value, sent);
        }
      }
      if !ok {
        ClearState(false);
        SetErrorFlag();
        return -1;
      }
      code := WaitPcHello(waits);
      if code != 0 {
        ClearState(false);
        SetErrorFlag();
        return -2;
      }
      isOpened, isError := true, false;
      events := events + [EventOpened];
    }

    /** `factory_session_close`; the session ends whether or not the goodbye gets across. */
    method Close(sent: bool)
      modifies this
      ensures View() == Step(old(View()), CallClose(sent)).next
    {
      hide SendPacket;
      if !isOpened && !hasSessionId {
        ClearState(false);
        return;
      }
      var ok := SendOut(0x21, [], sent);
      CloseWithEvent();
    }

    /** `factory_session_send`. */
    method Send(data: bytes, sent: bool) returns (code: int)
      modifies this
      ensures var o := Step(old(View()), CallSend(data, sent)); code == o.code && View() == o.next
    {
      hide SendPacket;
      if !isOpened {
        return -2;
      }
      var ok := SendOut(0x01, data, sent);
      if !ok {
        SetErrorFlag();
        return -3;
      }
      code := 0;
    }

    /** `factory_session_receive`. */
    method Receive(room: nat, received: Received) returns (code: int, data: bytes)
      modifies this
      ensures Outcome(code, data, View()) == Step(old(View()), CallReceive(room, received))
    {
      hide ParsePacketView;
      data := [];
      if !isOpened {
        return -2, [];
      }
      if received.LinkFailed? {
        SetErrorFlag();
        return -3, [];
      }
      var parsed := ParsePacketView(DeviceContext(isOpened, hasSessionId, sessionId), received.packet, true);
      if parsed.Err? {
        return -4, [];
      }
      var view := parsed.value;
      if view.code == 0x12 || view.code == 0x22 {
        CloseWithEvent();
        return -5, [];
      }
      if view.code == 0x11 || view.code == 0x21 {
        CloseWithEvent();
        return 0, [];
      }
      if room < |view.payload| {
        return -6, [];
      }
      code, data := 0, view.payload;
    }
  }

  // ---------------------------------------------------------------------------
  // The session's life cycle, over every sequence of calls

  /** The notifications that open and close the session, without the errors between them. */
  function Lifecycle(events: seq<SessionEvent>): seq<SessionEvent> {
    if events == [] then []
    else
      var init, last := Lifecycle(events[..|events| - 1]), events[|events| - 1];
      if last == EventError then init else init + [last]
  }

  predicate Alternates(l: seq<SessionEvent>) {
    forall i :: 0 <= i < |l| ==> l[i] == if i % 2 == 0 then EventOpened else EventClosed
  }

  /** Opened and closed strictly alternate, starting with opened; the session is open exactly when the
      last of them says so; it has an id, of the right size, exactly when it is open, and sixteen zeros
      otherwise; without a session no authentication is required; and an error that shows was notified. */
  predicate Consistent(s: DeviceState) {
    && s.isOpened == s.hasSessionId && |s.sessionId| == SESSION_ID_SIZE
    && Alternates(Lifecycle(s.events))
    && s.isOpened == (|Lifecycle(s.events)| % 2 == 1)
    && (!s.isOpened ==> !s.requireAuth && forall i :: 0 <= i < 16 ==> s.sessionId[i] == 0)
    && (s.isError ==> EventError in s.events)
  }

  lemma LifecycleSnoc(events: seq<SessionEvent>, e: SessionEvent)
    ensures Lifecycle(events + [e]) == if e == EventError then Lifecycle(events) else Lifecycle(events) + [e]
  {
    assert (events + [e])[..|events|] == events;
  }

  /** While no session exists, waiting for the host's hello notifies nobody and at most records an id. */
  lemma {:induction false} AwaitHelloQuiet(s: DeviceState, waits: seq<Received>)
    requires !s.isOpened && !s.hasSessionId && |s.sessionId| == SESSION_ID_SIZE
    ensures var (code, t) := AwaitHello(s, waits);
      && t.events == s.events && t.outbound == s.outbound && !t.isOpened && |t.sessionId| == SESSION_ID_SIZE
      && t.hasSessionId == (code == 0)
    decreases waits
  {
    hide ParsePacketView;
    if waits != [] {
      AwaitHelloQuiet(s, waits[1..]);
    }
  }

  lemma StepConsistent(s: DeviceState, call: Call)
    requires Consistent(s)
    ensures Consistent(Step(s, call).next)
  {
    hide ParsePacketView, BuildPacket, BuildDeviceHello, AwaitHello, Lifecycle;
    LifecycleSnoc(s.events, EventError);
    LifecycleSnoc(s.events, EventOpened);
    LifecycleSnoc(s.events, EventClosed);
    if call.CallOpen? && !s.isOpened {
      var greeted := SendHello(Clear(s, true).(requireAuth := call.requireAuth), call.uuid, call.sent);
      if greeted.Some? {
        AwaitHelloQuiet(greeted.value, call.waits);
      }
    }
  }

  lemma {:induction false} ConsistentStays(s: DeviceState, calls: seq<Call>)
    requires Consistent(s)
    ensures Consistent(RunCalls(s, calls))
    decreases calls
  {
    hide Step, Consistent;
    if calls != [] {
      StepConsistent(s, calls[0]);
      ConsistentStays(Step(s, calls[0]).next, calls[1..]);
    }
  }

  /** Over every sequence of API calls after an initialisation, whatever the link delivers, times out
      on or refuses. */
  lemma LifecycleSafe(calls: seq<Call>)
    ensures var s := RunCalls(Initial(), calls);
      && s.isOpened == s.hasSessionId
      && Alternates(Lifecycle(s.events))
      && s.isOpened == (|Lifecycle(s.events)| % 2 == 1)
      && (!s.isOpened ==> !s.requireAuth && |s.sessionId| == 16 && forall i :: 0 <= i < 16 ==> s.sessionId[i] == 0)
      && (s.isError ==> EventError in s.events)
  {
    ConsistentStays(Initial(), calls);
  }

  // ---------------------------------------------------------------------------
  // What opening comes to

  /** A packet of a sessionless type, as the host encodes it. */
  ghost predicate IsPacket(raw: bytes, t: PacketType, payload: bytes) {
    IsSessionless(t) && exists flag: byte :: Encode(PacketOf(t, payload, flag, None)) == Ok(raw)
  }

  /** A hello payload that carries the id; more may follow, if the size byte covers no more than there is. */
  ghost predicate CarriesId(payload: bytes, id: bytes) {
    |id| == SESSION_ID_SIZE
    && exists n: byte, more: bytes :: 18 <= n <= 18 + |more| && payload == [0x01, n] + id + more
  }

  ghost predicate IsHello(w: Received) {
    w.Got? && exists payload :: IsPacket(w.packet, PcHello, payload)
  }

  ghost predicate Greets(w: Received, id: bytes) {
    w.Got? && exists payload :: IsPacket(w.packet, PcHello, payload) && CarriesId(payload, id)
  }

  ghost predicate Alerts(w: Received) {
    w.Got? && exists payload :: IsPacket(w.packet, PcAlert, payload) || IsPacket(w.packet, DeviceAlert, payload)
  }

  ghost predicate Decides(w: Received) {
    (w.LinkFailed? && w.code != -4) || IsHello(w) || Alerts(w)
  }

  ghost predicate FirstToDecide(waits: seq<Received>, k: nat) {
    k < |waits| && Decides(waits[k]) && forall i :: 0 <= i < k ==> !Decides(waits[i])
  }

  /** What the device sees in a packet of a known sessionless type. */
  lemma SeenAs(c: DeviceContext, raw: bytes, t: PacketType, payload: bytes)
    requires IsSessionless(t)
    ensures IsPacket(raw, t, payload) <==>
      var view := ParsePacketView(c, raw, false);
      view.Ok? && view.value.code == TypeCode(t) && view.value.payload == payload
  {
    hide Encode, Decode, TypeCode, TypeOf, ParsePacketView;
    ParsersAgree(c, raw);
    TypeCodes(t, TypeCode(t));
    if flag: byte :| Encode(PacketOf(t, payload, flag, None)) == Ok(raw) {
      EncodedPayloadFits(PacketOf(t, payload, flag, None));
      DecodeEncode(PacketOf(t, payload, flag, None));
    }
    var view := ParsePacketView(c, raw, false);
    if view.Ok? && view.value.code == TypeCode(t) && view.value.payload == payload {
      ViewCode(c, raw);
      EncodeDecode(raw);
      var p := Decode(raw).value;
      TypeCodes(p.ptype, TypeCode(p.ptype));
      assert p == PacketOf(t, payload, p.flag, None);
    }
  }

  lemma ViewCode(c: DeviceContext, raw: bytes)
    ensures ParsePacketView(c, raw, false).Ok? ==>
      |raw| >= 2 && ParsePacketView(c, raw, false).value.code == raw[1]
  {
  }

  lemma HelloIds(payload: bytes, id: bytes)
    ensures ParsePcHello(payload) == Ok(id) <==> CarriesId(payload, id)
  {
    if ParsePcHello(payload) == Ok(id) {
      assert payload == [0x01, payload[1]] + id + payload[18..];
    }
    if CarriesId(payload, id) {
      var n: byte, more: bytes :| 18 <= n <= 18 + |more| && payload == [0x01, n] + id + more;
      assert payload[2..18] == id;
    }
  }

  /** One thing received, on its own: skipped, or deciding. */
  lemma AwaitOne(s: DeviceState, waits: seq<Received>)
    requires waits != []
    ensures var w, r := waits[0], AwaitHello(s, waits);
      && (!Decides(w) ==> r == AwaitHello(s, waits[1..]))
      && (w.LinkFailed? && w.code != -4 ==> r == (-1, s))
      && (Alerts(w) ==> r == (-2, CloseAndNotify(s)))
      && (forall id :: Greets(w, id) ==> r == (0, s.(sessionId := id, hasSessionId := true)))
      && (IsHello(w) && (forall id :: !Greets(w, id)) ==> r == (-3, s))
  {
    hide ParsePacketView, ParsePcHello, IsPacket, CarriesId, CloseAndNotify;
    var w := waits[0];
    if w.Got? {
      forall t: PacketType, payload ensures IsSessionless(t) ==> (IsPacket(w.packet, t, payload) <==>
          var view := ParsePacketView(Context(s), w.packet, false);
          view.Ok? && view.value.code == TypeCode(t) && view.value.payload == payload) {
        if IsSessionless(t) {
          SeenAs(Context(s), w.packet, t, payload);
        }
      }
      forall payload, id ensures ParsePcHello(payload) == Ok(id) <==> CarriesId(payload, id) {
        HelloIds(payload, id);
      }
      var view := ParsePacketView(Context(s), w.packet, false);
      if view.Ok? {
        var payload := view.value.payload;
        assert view.value.code == TypeCode(PcHello) ==> IsPacket(w.packet, PcHello, payload);
        assert view.value.code == TypeCode(PcAlert) ==> IsPacket(w.packet, PcAlert, payload);
        assert view.value.code == TypeCode(DeviceAlert) ==> IsPacket(w.packet, DeviceAlert, payload);
        if view.value.code == TypeCode(PcHello) && ParsePcHello(payload).Ok? {
          assert CarriesId(payload, ParsePcHello(payload).value);
          assert Greets(w, ParsePcHello(payload).value);
        }
      }
    }
  }

  /** Waiting for the host's hello, over every list of things received: nothing before the first that decides
      matters. A hello that carries an id is success with that id and nothing else changed; any other hello,
      an alert, and a failure of the link are told apart by the code; and so is running out of time. */
  lemma {:induction false} AwaitExact(s: DeviceState, waits: seq<Received>, k: nat)
    requires k <= |waits| && forall i :: 0 <= i < k ==> !Decides(waits[i])
    ensures k == |waits| ==> AwaitHello(s, waits) == (-4, s)
    ensures k < |waits| && Decides(waits[k]) ==>
      var w, r := waits[k], AwaitHello(s, waits);
      && (w.LinkFailed? ==> r == (-1, s))
      && (Alerts(w) ==> r == (-2, CloseAndNotify(s)))
      && (forall id :: Greets(w, id) ==> r == (0, s.(sessionId := id, hasSessionId := true)))
      && (IsHello(w) && (forall id :: !Greets(w, id)) ==> r == (-3, s))
    decreases k
  {
    hide AwaitHello, Decides, Alerts, Greets, IsHello, CloseAndNotify;
    if waits == [] {
      NothingAwaited(s);
    } else {
      AwaitOne(s, waits);
      if k > 0 {
        AwaitExact(s, waits[1..], k - 1);
      } else {
        DecidesHow(waits[0]);
      }
    }
  }

  lemma NothingAwaited(s: DeviceState)
    ensures AwaitHello(s, []) == (-4, s)
  {
  }

  lemma DecidesHow(w: Received)
    ensures w.LinkFailed? && Decides(w) ==> w.code != -4
  {
  }

  /** The first to decide, if there is one. */
  lemma {:induction false} Deciding(waits: seq<Received>) returns (k: nat)
    ensures k <= |waits| && forall i :: 0 <= i < k ==> !Decides(waits[i])
    ensures k < |waits| ==> Decides(waits[k])
    decreases waits
  {
    hide Decides;
    if waits == [] || Decides(waits[0]) {
      k := 0;
    } else {
      var rest := Deciding(waits[1..]);
      k := rest + 1;
      assert forall i :: 0 < i < k ==> waits[i] == waits[1..][i - 1];
    }
  }

  /** The session is opened by the id, over these waits. */
  ghost predicate OpenedBy(waits: seq<Received>, id: bytes) {
    exists k: nat :: FirstToDecide(waits, k) && Greets(waits[k], id)
  }

  lemma GreetsIs(w: Received, id: bytes)
    ensures Greets(w, id) ==> Decides(w) && IsHello(w) && |id| == SESSION_ID_SIZE
    ensures Decides(w) && w.Got? ==> IsHello(w) || Alerts(w)
  {
    hide IsPacket;
  }

  /** Waiting succeeds with an id if and only if the first thing to decide is a hello that carries it. */
  lemma AwaitSucceedsExact(s: DeviceState, waits: seq<Received>, id: bytes)
    ensures AwaitHello(s, waits) == (0, s.(sessionId := id, hasSessionId := true)) <==> OpenedBy(waits, id)
    ensures AwaitHello(s, waits).0 == 0 ==> exists i :: OpenedBy(waits, i)
  {
    hide AwaitHello, Decides, Alerts, Greets, IsHello, CloseAndNotify;
    var k := Deciding(waits);
    AwaitExact(s, waits, k);
    if k < |waits| {
      GreetsIs(waits[k], id);
      assert FirstToDecide(waits, k);
      forall i ensures Greets(waits[k], i) ==> OpenedBy(waits, i) {
      }
    }
    if OpenedBy(waits, id) {
      var j: nat :| FirstToDecide(waits, j) && Greets(waits[j], id);
      assert j == k;
    }
  }

  /** The greeting the device sends. */
  function Hello(uuid: bytes, requireAuth: bool): (r: bytes)
    requires 1 <= |uuid| <= 255
  {
    Encode(PacketOf(DeviceHello, [|uuid|] + uuid + [if requireAuth then 1 else 0], 0, None)).value
  }

  lemma HelloSent(s: DeviceState, uuid: Option<bytes>, sent: bool)
    ensures SendHello(s, uuid, sent).Some? <==> uuid.Some? && 1 <= |uuid.value| <= 255 && sent
    ensures SendHello(s, uuid, sent).Some? ==>
      SendHello(s, uuid, sent).value == s.(outbound := s.outbound + [Hello(uuid.value, s.requireAuth)])
  {
    if uuid.Some? && 1 <= |uuid.value| <= 255 {
      var payload := [|uuid.value|] + uuid.value + [if s.requireAuth then 1 else 0];
      BuildersAgree(Context(s), PacketOf(DeviceHello, payload, 0, None), PACKET_MAX_SIZE);
    }
  }

  /** A session that is open already stays what it is. */
  lemma OpenTwice(s: DeviceState, auth: bool, uuid: Option<bytes>, sent: bool, waits: seq<Received>)
    requires s.isOpened
    ensures OpenCall(s, auth, uuid, sent, waits) == Outcome(0, [], s)
  {
  }

  /** What opening comes to, for every state in which no session is open and everything the outside may do.
      It succeeds with an id if and only if the greeting goes out and the first thing to decide is a hello
      that carries this id; then the session is that one. Otherwise it is closed, with an error notified. */
  lemma OpenExact(s: DeviceState, auth: bool, uuid: Option<bytes>, sent: bool, waits: seq<Received>, id: bytes)
    requires !s.isOpened
    ensures var o := OpenCall(s, auth, uuid, sent, waits);
      var greeted := uuid.Some? && 1 <= |uuid.value| <= 255 && sent;
      var outbound := if greeted then s.outbound + [Hello(uuid.value, auth)] else s.outbound;
      && o.code in {0, -1, -2} && o.data == [] && (o.code == -1 <==> !greeted)
      && (o.code == 0 && o.next.sessionId == id <==> greeted && OpenedBy(waits, id))
      && o.next == if o.code == 0
                   then DeviceState(true, false, true, o.next.sessionId, auth, s.events + [EventOpened], outbound)
                   else DeviceState(false, true, false, NO_ID, false, s.events + [EventError], outbound)
  {
    hide AwaitHello, SendHello, OpenedBy, Hello, Lifecycle;
    var t := Clear(s, true).(requireAuth := auth);
    HelloSent(t, uuid, sent);
    if SendHello(t, uuid, sent).Some? {
      var greeted := SendHello(t, uuid, sent).value;
      AwaitHelloQuiet(greeted, waits);
      AwaitSucceedsExact(greeted, waits, id);
      if AwaitHello(greeted, waits).0 == 0 {
        var i :| OpenedBy(waits, i);
        AwaitSucceedsExact(greeted, waits, i);
      }
    }
  }

  // ---------------------------------------------------------------------------
  // What the device hands to its caller

  /** In an open session a call hands over `data` and changes nothing exactly when the raw packet is what
      the device's own builder makes of that data in this session, for any type byte, known or not, but
      those of alerts and byes, and the data fits the caller's buffer. */
  lemma DeviceHandsOverExact(s: DeviceState, raw: bytes, room: nat, data: bytes)
    requires Consistent(s) && s.isOpened
    ensures ReceiveCall(s, room, Got(raw)) == Outcome(0, data, s) <==>
      |data| <= room
      && exists code: byte, flag: byte :: Envelope(s, raw, data, code, flag) && code !in {0x11, 0x12, 0x21, 0x22}
  {
    hide Lifecycle, U32At, U32Be;
    if code: byte, flag: byte :| Envelope(s, raw, data, code, flag) && code !in {0x11, 0x12, 0x21, 0x22} {
      EnvelopeOpens(s, raw, data, code, flag);
    }
    if ReceiveCall(s, room, Got(raw)) == Outcome(0, data, s) {
      EnvelopeMade(s, raw);
      assert Envelope(s, raw, data, raw[1], raw[2]);
    }
  }

  /** The raw packet is what the device's own builder makes of the data in this session. */
  predicate Envelope(s: DeviceState, raw: bytes, data: bytes, code: byte, flag: byte) {
    |data| <= 0xFFFF_FFFF && BuildPacket(Context(s), code, flag, data, |raw|) == Ok(raw)
  }

  lemma EnvelopeOpens(s: DeviceState, raw: bytes, data: bytes, code: byte, flag: byte)
    requires s.isOpened && s.hasSessionId && |s.sessionId| == SESSION_ID_SIZE && |data| <= 0xFFFF_FFFF
    requires BuildPacket(Context(s), code, flag, data, |raw|) == Ok(raw)
    ensures ParsePacketView(Context(s), raw, true) == Ok(PacketView(code, flag, data, IsSessionlessCode(code)))
  {
    hide U32At, U32Be;
    var id := if IsSessionlessCode(code) then [] else s.sessionId;
    assert raw[..7 + |id|] == Prefix(code, flag, id, |data|);
    PrefixFields(raw, code, flag, id, |data|);
    assert raw[7 + |id|..] == data;
  }

  lemma EnvelopeMade(s: DeviceState, raw: bytes)
    requires s.isOpened && s.hasSessionId && |s.sessionId| == SESSION_ID_SIZE
    requires ParsePacketView(Context(s), raw, true).Ok?
    ensures |raw| >= SESSIONLESS_HEADER_SIZE
    ensures var view := ParsePacketView(Context(s), raw, true).value;
      && view.code == raw[1] && |view.payload| <= 0xFFFF_FFFF
      && BuildPacket(Context(s), raw[1], raw[2], view.payload, |raw|) == Ok(raw)
  {
    hide U32At, U32Be;
    var view := ParsePacketView(Context(s), raw, true).value;
    var id := if IsSessionlessCode(raw[1]) then [] else s.sessionId;
    assert raw[3..3 + |id|] == id;
    PrefixFields(raw, raw[1], raw[2], id, |view.payload|);
    assert raw == raw[..7 + |id|] + raw[7 + |id|..];
  }

  /** In an open session the device hands over the payload of every well-formed packet that carries the
      session's id or none at all, unless it is an alert, a bye, or too large: the message type is not
      looked at. */
  lemma DeviceHandsOver(s: DeviceState, p: Packet, room: nat)
    requires Consistent(s) && s.isOpened && |p.payload| <= 0xFFFF_FFFF
    ensures Encode(p).Ok?
    ensures var o := ReceiveCall(s, room, Got(Encode(p).value));
      (o.code == 0 && o.data == p.payload && o.next == s) <==>
        (IsSessionless(p.ptype) || p.sessionId == Some(s.sessionId))
        && !IsAlert(p.ptype) && !IsBye(p.ptype) && |p.payload| <= room
  {
    hide ParsePacketView, Encode, Lifecycle;
    DeviceMatchesId(Context(s), p);
  }

  /** So a sessionless PC_HELLO that arrives in an open session is received as if it were a message,
      where the host's client refuses anything but a MESSAGE. */
  lemma HelloReceivedAsMessage(s: DeviceState, payload: bytes)
    requires Consistent(s) && s.isOpened && |payload| <= 0xFFFF_FFFF
    ensures var p: Packet := PacketOf(PcHello, payload, 0, None);
      Encode(p).Ok? && ReceiveCall(s, |payload|, Got(Encode(p).value)) == Outcome(0, payload, s)
    ensures Session.Judge(s.sessionId, PacketOf(PcHello, payload, 0, None)) == Violation
  {
    DeviceHandsOver(s, PacketOf(PcHello, payload, 0, None), |payload|);
  }

  // ---------------------------------------------------------------------------
  // What sending, receiving and closing come to

  /** A packet of a known type in this session, as the host encodes it. */
  ghost predicate IsOurs(s: DeviceState, raw: bytes, t: PacketType, payload: bytes) {
    |s.sessionId| == SESSION_ID_SIZE
    && exists flag: byte :: Encode(InSession(s, t, payload, flag)) == Ok(raw)
  }

  function InSession(s: DeviceState, t: PacketType, payload: bytes, flag: byte): Packet
    requires |s.sessionId| == SESSION_ID_SIZE
  {
    PacketOf(t, payload, flag, if IsSessionless(t) then None else Some(s.sessionId))
  }

  lemma SeenInSession(s: DeviceState, raw: bytes, t: PacketType, payload: bytes)
    requires s.isOpened && s.hasSessionId && |s.sessionId| == SESSION_ID_SIZE
    ensures IsOurs(s, raw, t, payload) <==>
      var view := ParsePacketView(Context(s), raw, true);
      view.Ok? && view.value.code == TypeCode(t) && view.value.payload == payload
  {
    hide Encode, Decode, TypeCode, TypeOf, ParsePacketView;
    TypeCodes(t, TypeCode(t));
    if flag: byte :| Encode(InSession(s, t, payload, flag)) == Ok(raw) {
      EncodedPayloadFits(InSession(s, t, payload, flag));
      DeviceMatchesId(Context(s), InSession(s, t, payload, flag));
    }
    var view := ParsePacketView(Context(s), raw, true);
    if view.Ok? && view.value.code == TypeCode(t) && view.value.payload == payload {
      ViewsAgree(Context(s), raw);
      ParsersAgree(Context(s), raw);
      EncodeDecode(raw);
      var p := Decode(raw).value;
      TypeCodes(p.ptype, TypeCode(p.ptype));
      EncodedPayloadFits(p);
      DeviceMatchesId(Context(s), p);
      assert p == InSession(s, t, payload, p.flag);
    }
  }

  lemma ViewsAgree(c: DeviceContext, raw: bytes)
    ensures ParsePacketView(c, raw, true).Ok? ==>
      && |raw| >= 2 && ParsePacketView(c, raw, true).value.code == raw[1]
      && ParsePacketView(c, raw, false) == ParsePacketView(c, raw, true)
  {
  }

  ghost predicate AlertedBy(s: DeviceState, raw: bytes) {
    exists payload :: IsOurs(s, raw, PcAlert, payload) || IsOurs(s, raw, DeviceAlert, payload)
  }

  ghost predicate ByeIn(s: DeviceState, raw: bytes) {
    exists payload :: IsOurs(s, raw, PcBye, payload) || IsOurs(s, raw, DeviceBye, payload)
  }

  /** What the device makes of any packet in an open session. An alert and a bye of this session, and nothing
      else, end it, told apart by the code; and a packet is refused as none of this session's exactly if the
      device's builder makes it in no way. */
  lemma ReceiveExact(s: DeviceState, room: nat, raw: bytes)
    requires Consistent(s) && s.isOpened
    ensures var o := ReceiveCall(s, room, Got(raw));
      && o.code in {0, -4, -5, -6}
      && (AlertedBy(s, raw) <==> o == Outcome(-5, [], CloseAndNotify(s)))
      && (ByeIn(s, raw) <==> o == Outcome(0, [], CloseAndNotify(s)))
      && (!o.next.isOpened <==> AlertedBy(s, raw) || ByeIn(s, raw)) && (o.next.isOpened ==> o.next == s)
      && (o.code == -4 <==> forall data, code: byte, flag: byte :: !Envelope(s, raw, data, code, flag))
      && (o.code == -6 <==> exists data, code: byte, flag: byte ::
            Envelope(s, raw, data, code, flag) && code !in {0x11, 0x12, 0x21, 0x22} && room < |data|)
    ensures CloseAndNotify(s) == DeviceState(false, false, false, NO_ID, false, s.events + [EventClosed], s.outbound)
  {
    hide Lifecycle, IsOurs, ParsePacketView, BuildPacket;
    forall t, payload ensures IsOurs(s, raw, t, payload) <==>
        var view := ParsePacketView(Context(s), raw, true);
        view.Ok? && view.value.code == TypeCode(t) && view.value.payload == payload {
      SeenInSession(s, raw, t, payload);
    }
    forall data, code: byte, flag: byte | Envelope(s, raw, data, code, flag)
      ensures ParsePacketView(Context(s), raw, true) == Ok(PacketView(code, flag, data, IsSessionlessCode(code))) {
      EnvelopeOpens(s, raw, data, code, flag);
    }
    var view := ParsePacketView(Context(s), raw, true);
    if view.Ok? {
      var payload := view.value.payload;
      EnvelopeMade(s, raw);
      assert Envelope(s, raw, payload, raw[1], raw[2]);
      assert view.value.code == TypeCode(PcAlert) ==> IsOurs(s, raw, PcAlert, payload);
      assert view.value.code == TypeCode(DeviceAlert) ==> IsOurs(s, raw, DeviceAlert, payload);
      assert view.value.code == TypeCode(PcBye) ==> IsOurs(s, raw, PcBye, payload);
      assert view.value.code == TypeCode(DeviceBye) ==> IsOurs(s, raw, DeviceBye, payload);
    }
  }

  /** Without a session nothing is received, and a failing link is an error that leaves the session open. */
  lemma ReceiveRefusals(s: DeviceState, room: nat, received: Received)
    ensures !s.isOpened ==> ReceiveCall(s, room, received) == Outcome(-2, [], s)
    ensures s.isOpened && received.LinkFailed? ==>
      ReceiveCall(s, room, received) == Outcome(-3, [], s.(isError := true, events := s.events + [EventError]))
  {
  }

  /** Sending succeeds if and only if a session is open, the data has at most 2025 bytes and the link takes the
      packet; what goes out is then what the host takes for a message of this session with this data. A failed
      send is an error that leaves the session open. */
  lemma SendExact(s: DeviceState, data: bytes, sent: bool)
    requires Consistent(s)
    ensures var o := SendCall(s, data, sent);
      && (o.code == 0 <==> s.isOpened && |data| <= 2025 && sent) && (o.code == -2 <==> !s.isOpened)
      && o.code in {0, -2, -3} && o.data == []
      && (o.code == 0 ==>
            && Encode(InSession(s, Message, data, 0)).Ok?
            && o.next == s.(outbound := s.outbound + [Encode(InSession(s, Message, data, 0)).value])
            && Decode(o.next.outbound[|s.outbound|]).Ok?
            && Session.Judge(s.sessionId, Decode(o.next.outbound[|s.outbound|]).value) == Session.Deliver(data))
      && (o.code == -2 ==> o.next == s)
      && (o.code == -3 ==> o.next == s.(isError := true, events := s.events + [EventError]))
  {
    hide Encode, Decode, Lifecycle;
    if s.isOpened && |data| <= 2025 {
      var p := InSession(s, Message, data, 0);
      DecodeEncode(p);
      BuildersAgree(Context(s), p, PACKET_MAX_SIZE);
    }
  }

  /** Closing ends the session in every case; with a session and a link that works it says goodbye to the host,
      who takes it for the end of this session. */
  lemma CloseExact(s: DeviceState, sent: bool)
    requires Consistent(s)
    ensures var o := CloseCall(s, sent);
      && o.code == 0 && o.data == []
      && (!s.isOpened ==> o.next == DeviceState(false, false, false, NO_ID, false, s.events, s.outbound))
      && (s.isOpened ==>
            && Encode(InSession(s, DeviceBye, [], 0)).Ok?
            && var bye := Encode(InSession(s, DeviceBye, [], 0)).value;
            && Decode(bye).Ok? && Session.Judge(s.sessionId, Decode(bye).value) == Session.PeerClosed
            && o.next == DeviceState(false, false, false, NO_ID, false, s.events + [EventClosed],
                                     if sent then s.outbound + [bye] else s.outbound))
  {
    hide Encode, Decode, Lifecycle;
    if s.isOpened {
      var p := InSession(s, DeviceBye, [], 0);
      DecodeEncode(p);
      BuildersAgree(Context(s), p, PACKET_MAX_SIZE);
    }
  }
}
