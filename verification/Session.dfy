/** Session packets: the host's codec and the device's, and the host's session client
    (pc/src/session/packet.py, pc/src/session/protocol.py, pc/src/session/client.py;
    device/src/factory_session.c, `build_packet` and `parse_packet_view`). */
module Session {
  import opened Bytes
  import Frames

  const PROTOCOL_VERSION: byte := 0x01
  const SESSION_ID_SIZE: nat := 16
  const SESSIONLESS_HEADER_SIZE: nat := 7
  const SESSION_HEADER_SIZE: nat := 23
  const PACKET_MAX_SIZE: nat := 2048

  datatype SessionError =
    | SessionArgument | SessionProtocol | SessionState | SessionOpen | SessionClosed
    | SessionAlert(reason: bytes) | BelowSession(cause: Frames.FrameError)

  datatype PacketType =
    | Message | PcHello | PcBye | PcAlert | DeviceHello | DeviceBye | DeviceAlert | DeviceChallenge

  function TypeCode(t: PacketType): byte {
    match t
    case Message => 0x01
    case PcHello => 0x10
    case PcBye => 0x11
    case PcAlert => 0x12
    case DeviceHello => 0x20
    case DeviceBye => 0x21
    case DeviceAlert => 0x22
    case DeviceChallenge => 0x23
  }

  function TypeOf(code: byte): Option<PacketType> {
    match code
    case 0x01 => Some(Message)
    case 0x10 => Some(PcHello)
    case 0x11 => Some(PcBye)
    case 0x12 => Some(PcAlert)
    case 0x20 => Some(DeviceHello)
    case 0x21 => Some(DeviceBye)
    case 0x22 => Some(DeviceAlert)
    case 0x23 => Some(DeviceChallenge)
    case _ => None
  }

  predicate IsSessionless(t: PacketType) {
    t in {PcHello, PcAlert, DeviceHello, DeviceAlert, DeviceChallenge}
  }

  predicate IsAlert(t: PacketType) {
    t == PcAlert || t == DeviceAlert
  }

  predicate IsBye(t: PacketType) {
    t == PcBye || t == DeviceBye
  }

  datatype AnyPacket = PacketOf(ptype: PacketType, payload: bytes, flag: byte, sessionId: Option<bytes>)

  predicate WellFormed(p: AnyPacket) {
    if IsSessionless(p.ptype) then p.sessionId.None?
    else p.sessionId.Some? && |p.sessionId.value| == SESSION_ID_SIZE
  }

  /** A packet object exists only if it carries a session id exactly when its type needs one. */
  type Packet = p: AnyPacket | WellFormed(p) witness PacketOf(PcHello, [], 0, None)

  /** The normalisation and checks of the packet's constructor. */
  function MakePacket(t: PacketType, payload: bytes, flag: int, sessionId: Option<bytes>):
    Result<Packet, SessionError>
  {
    if IsSessionless(t) then
      if sessionId.Some? && sessionId.value != [] then Err(SessionArgument)
      else Ok(PacketOf(t, payload, flag % 256, None))
    else if sessionId.None? || |sessionId.value| != SESSION_ID_SIZE then Err(SessionArgument)
    else Ok(PacketOf(t, payload, flag % 256, sessionId))
  }

  // ---------------------------------------------------------------------------
  // The wire form

  function Prefix(code: byte, flag: byte, sessionId: bytes, size: u32): bytes {
    [PROTOCOL_VERSION, code, flag] + sessionId + U32Be(size)
  }

  function IdBytes(p: Packet): bytes {
    if p.sessionId.Some? then p.sessionId.value else []
  }

  function HeaderSize(t: PacketType): nat {
    if IsSessionless(t) then SESSIONLESS_HEADER_SIZE else SESSION_HEADER_SIZE
  }

  function Encode(p: Packet): (r: Result<bytes, SessionError>)
    ensures r.Ok? ==> |r.value| == HeaderSize(p.ptype) + |p.payload|
  {
    if |p.payload| > 0xFFFF_FFFF then Err(BelowSession(Frames.ArgumentError))
    else Ok(Prefix(TypeCode(p.ptype), p.flag, IdBytes(p), |p.payload|) + p.payload)
  }

  function Decode(raw: bytes): Result<Packet, SessionError> {
    if |raw| < SESSIONLESS_HEADER_SIZE then Err(SessionProtocol)
    else if raw[0] != PROTOCOL_VERSION then Err(SessionProtocol)
    else if TypeOf(raw[1]).None? then Err(SessionProtocol)
    else
      var t := TypeOf(raw[1]).value;
      if IsSessionless(t) then
        if |raw| != SESSIONLESS_HEADER_SIZE + U32At(raw, 3) then Err(SessionProtocol)
        else MakePacket(t, raw[SESSIONLESS_HEADER_SIZE..], raw[2], None)
      else if |raw| < SESSION_HEADER_SIZE then Err(SessionProtocol)
      else if |raw| != SESSION_HEADER_SIZE + U32At(raw, 19) then Err(SessionProtocol)
      else MakePacket(t, raw[SESSION_HEADER_SIZE..], raw[2], Some(raw[3..19]))
  }

  lemma TypeCodes(t: PacketType, code: byte)
    ensures TypeOf(TypeCode(t)) == Some(t)
    ensures TypeOf(code).Some? ==> TypeCode(TypeOf(code).value) == code
  {
  }

  /** Where the fields of either header sit. */
  lemma PrefixFields(raw: bytes, code: byte, flag: byte, id: bytes, size: u32)
    requires |raw| >= 7 + |id|
    ensures raw[..7 + |id|] == Prefix(code, flag, id, size)
       <==> raw[0] == PROTOCOL_VERSION && raw[1] == code && raw[2] == flag
            && raw[3..3 + |id|] == id && U32At(raw, 3 + |id|) == size
  {
    hide U32Be, U32At;
    var n := |id|;
    var h := raw[..7 + n];
    assert h == [raw[0], raw[1], raw[2]] + raw[3..3 + n] + raw[3 + n..7 + n];
    U32Inverse(raw, 3 + n);
    if h == Prefix(code, flag, id, size) {
      var p := Prefix(code, flag, id, size);
      assert p[0] == PROTOCOL_VERSION && p[1] == code && p[2] == flag;
      assert h[3..3 + n] == p[3..3 + n] == id;
      assert h[3 + n..7 + n] == p[3 + n..7 + n] == U32Be(size);
      assert raw[3 + n..7 + n] == h[3 + n..7 + n];
      U32RoundTrip(size, raw, 3 + n);
    }
  }

  /** Decoding undoes encoding, for both header forms. */
  lemma DecodeEncode(p: Packet)
    requires |p.payload| <= 0xFFFF_FFFF
    ensures Encode(p).Ok? && Decode(Encode(p).value) == Ok(p)
  {
    hide U32Be, U32At, TypeCode, TypeOf;
    var raw, id := Encode(p).value, IdBytes(p);
    assert raw[..7 + |id|] == Prefix(TypeCode(p.ptype), p.flag, id, |p.payload|);
    PrefixFields(raw, TypeCode(p.ptype), p.flag, id, |p.payload|);
    TypeCodes(p.ptype, 0);
    assert raw[7 + |id|..] == p.payload;
  }

  /** The wire form is canonical: whatever is accepted is the encoding of what it decodes to, so a
      sessionless packet and a session packet never share one. */
  lemma EncodeDecode(raw: bytes)
    requires Decode(raw).Ok?
    ensures Encode(Decode(raw).value) == Ok(raw)
  {
    hide U32Be, U32At, TypeCode, TypeOf;
    var p := Decode(raw).value;
    var id := IdBytes(p);
    TypeCodes(p.ptype, raw[1]);
    PrefixFields(raw, raw[1], raw[2], id, |p.payload|);
    assert raw == raw[..7 + |id|] + raw[7 + |id|..];
  }

  lemma EncodeInjective(p: Packet, q: Packet)
    requires Encode(p).Ok? && Encode(p) == Encode(q)
    ensures p == q
  {
    DecodeEncode(p);
    DecodeEncode(q);
  }

  // ---------------------------------------------------------------------------
  // Hello payloads

  function BuildPcHello(sessionId: bytes): Result<bytes, SessionError> {
    if |sessionId| != SESSION_ID_SIZE then Err(SessionArgument) else Ok([0x01, 18] + sessionId)
  }

  /** The device's reading of it, with the C function's return codes. */
  function ParsePcHello(payload: bytes): Result<bytes, int> {
    if |payload| < 18 then Err(-1)
    else if payload[0] != 0x01 then Err(-2)
    else if payload[1] < 18 || payload[1] > |payload| then Err(-3)
    else Ok(payload[2..18])
  }

  function BuildDeviceHello(uuid: bytes, requireAuth: bool): Result<bytes, int> {
    if |uuid| == 0 || |uuid| > 255 then Err(-4)
    else Ok([|uuid|] + uuid + [if requireAuth then 1 else 0])
  }

  datatype HelloInfo = HelloInfo(uuid: bytes, requireAuth: bool)

  function ParseDeviceHello(payload: bytes): Result<HelloInfo, SessionError> {
    if |payload| < 2 then Err(SessionProtocol)
    else if payload[0] == 0 then Err(SessionProtocol)
    else if |payload| != 1 + payload[0] as int + 1 then Err(SessionProtocol)
    else Ok(HelloInfo(payload[1..1 + payload[0] as int], payload[1 + payload[0] as int] != 0))
  }

  /** Each end reads from the other's hello exactly what was put into it. */
  lemma HellosUnderstood(sessionId: bytes, uuid: bytes, requireAuth: bool)
    ensures BuildPcHello(sessionId).Ok? ==> ParsePcHello(BuildPcHello(sessionId).value) == Ok(sessionId)
    ensures BuildDeviceHello(uuid, requireAuth).Ok? ==>
      ParseDeviceHello(BuildDeviceHello(uuid, requireAuth).value) == Ok(HelloInfo(uuid, requireAuth))
  {
    if BuildPcHello(sessionId).Ok? {
      assert ([0x01, 18] + sessionId)[2..18] == sessionId;
    }
    if BuildDeviceHello(uuid, requireAuth).Ok? {
      var payload := BuildDeviceHello(uuid, requireAuth).value;
      assert payload[1..1 + |uuid|] == uuid;
    }
  }

  lemma HelloCanonical(payload: bytes, uuid: bytes)
    requires ParseDeviceHello(payload) == Ok(HelloInfo(uuid, false))
    ensures BuildDeviceHello(uuid, false) == Ok(payload)
  {
    assert payload == [payload[0]] + uuid + [payload[|payload| - 1]];
  }

  // ---------------------------------------------------------------------------
  // The device's codec

  /** What the device's packet functions read of its session context. */
  datatype DeviceContext = DeviceContext(isOpened: bool, hasSessionId: bool, sessionId: bytes)

  datatype PacketView = PacketView(code: byte, flag: byte, payload: bytes, sessionless: bool)

  predicate IsSessionlessCode(code: byte) {
    code in {0x10, 0x12, 0x20, 0x22, 0x23}
  }

  /** `build_packet`, with its return codes. */
  function BuildPacket(c: DeviceContext, code: byte, flag: byte, payload: bytes, capacity: nat): Result<bytes, int> {
    var headerSize := if IsSessionlessCode(code) then SESSIONLESS_HEADER_SIZE else SESSION_HEADER_SIZE;
    if headerSize + |payload| > capacity then Err(-2)
    else if !IsSessionlessCode(code) && (!c.isOpened || !c.hasSessionId) then Err(-3)
    else
      var id := if IsSessionlessCode(code) then [] else c.sessionId;
      Ok([PROTOCOL_VERSION, code, flag] + id + U32Be(|payload| % 0x1_0000_0000) + payload)
  }

  /** `parse_packet_view`, with its return codes. The type byte is not checked against the known types. */
  function ParsePacketView(c: DeviceContext, raw: bytes, requireSessionMatch: bool): Result<PacketView, int> {
    if |raw| < SESSIONLESS_HEADER_SIZE then Err(-2)
    else if raw[0] != PROTOCOL_VERSION then Err(-3)
    else
      var sessionless := IsSessionlessCode(raw[1]);
      var headerSize := if sessionless then SESSIONLESS_HEADER_SIZE else SESSION_HEADER_SIZE;
      if |raw| < headerSize then Err(-4)
      else if !sessionless && requireSessionMatch && (!c.isOpened || !c.hasSessionId) then Err(-5)
      else if !sessionless && requireSessionMatch && raw[3..19] != c.sessionId then Err(-6)
      else if headerSize + U32At(raw, headerSize - 4) != |raw| then Err(-7)
      else Ok(PacketView(raw[1], raw[2], raw[headerSize..], sessionless))
  }

  /** What can be wrong with a packet, in the order in which the device looks. */
  predicate Defect(c: DeviceContext, raw: bytes, requireSessionMatch: bool, k: int) {
    match k
    case 2 => |raw| < 7
    case 3 => |raw| >= 1 && raw[0] != 0x01
    case 4 => |raw| >= 2 && !IsSessionlessCode(raw[1]) && |raw| < 23
    case 5 => |raw| >= 2 && !IsSessionlessCode(raw[1]) && requireSessionMatch && !(c.isOpened && c.hasSessionId)
    case 6 => |raw| >= 23 && !IsSessionlessCode(raw[1]) && requireSessionMatch && raw[3..19] != c.sessionId
    case 7 =>
      && |raw| >= 7
      && if IsSessionlessCode(raw[1]) then |raw| != 7 + U32At(raw, 3) else |raw| >= 23 && |raw| != 23 + U32At(raw, 19)
    case _ => false
  }

  /** The return code of the device's parser names the first defect, and there is none exactly if it accepts. */
  lemma ParserCodes(c: DeviceContext, raw: bytes, requireSessionMatch: bool, k: int)
    ensures ParsePacketView(c, raw, requireSessionMatch) == Err(-k) <==>
      Defect(c, raw, requireSessionMatch, k) && forall j :: j < k ==> !Defect(c, raw, requireSessionMatch, j)
    ensures ParsePacketView(c, raw, requireSessionMatch).Ok? <==> forall j :: !Defect(c, raw, requireSessionMatch, j)
  {
    hide U32At, IsSessionlessCode;
    assert forall j :: Defect(c, raw, requireSessionMatch, j) ==> j in {2, 3, 4, 5, 6, 7};
    assert ParsePacketView(c, raw, requireSessionMatch).Err? ==>
      var e := ParsePacketView(c, raw, requireSessionMatch).error;
      e in {-2, -3, -4, -5, -6, -7} && Defect(c, raw, requireSessionMatch, -e);
  }

  /** And of its builders: too large comes before no session; a uuid of no or more than 255 bytes; and the reader
      of the host's hello tells short, of another version, and of a wrong size apart. */
  lemma BuilderCodes(c: DeviceContext, code: byte, flag: byte, payload: bytes, capacity: nat, uuid: bytes, auth: bool)
    ensures var n := (if IsSessionlessCode(code) then 7 else 23) + |payload|;
      var r := BuildPacket(c, code, flag, payload, capacity);
      && (r == Err(-2) <==> n > capacity)
      && (r == Err(-3) <==> n <= capacity && !IsSessionlessCode(code) && !(c.isOpened && c.hasSessionId))
      && (r.Err? ==> r.error in {-2, -3}) && (r.Ok? && |c.sessionId| == SESSION_ID_SIZE ==> |r.value| == n)
    ensures BuildDeviceHello(uuid, auth).Err? <==> BuildDeviceHello(uuid, auth) == Err(-4)
    ensures BuildDeviceHello(uuid, auth).Ok? <==> 1 <= |uuid| <= 255
    ensures var r := ParsePcHello(payload);
      && (r == Err(-1) <==> |payload| < 18) && (r == Err(-2) <==> |payload| >= 18 && payload[0] != 0x01)
      && (r.Err? ==> r.error in {-1, -2, -3})
  {
  }

  /** What the host's constructors and parsers raise: an argument error exactly where a session id is missing, has
      another size or has no place; a protocol error for every hello that is none. */
  lemma HostErrors(t: PacketType, payload: bytes, flag: int, id: Option<bytes>, sessionId: bytes)
    ensures MakePacket(t, payload, flag, id).Err? <==> MakePacket(t, payload, flag, id) == Err(SessionArgument)
    ensures MakePacket(t, payload, flag, id).Ok? <==>
      if IsSessionless(t) then id.None? || id == Some([]) else id.Some? && |id.value| == 16
    ensures BuildPcHello(sessionId) == Err(SessionArgument) <==> |sessionId| != 16
    ensures ParseDeviceHello(payload).Err? <==> ParseDeviceHello(payload) == Err(SessionProtocol)
    ensures ParseDeviceHello(payload).Ok? <==> |payload| >= 2 && payload[0] > 0 && |payload| == 2 + payload[0] as int
    ensures Greeting([]) == Err(SessionOpen) && forall e :: Greeting([Err(e)]) == Err(SessionOpen)
  {
  }

  /** Host and device accept the same byte strings, and see the same in them, except that the device
      lets unknown type bytes through. */
  lemma ParsersAgree(c: DeviceContext, raw: bytes)
    ensures Decode(raw).Ok? <==> ParsePacketView(c, raw, false).Ok? && TypeOf(raw[1]).Some?
    ensures Decode(raw).Ok? ==>
      var p := Decode(raw).value;
      ParsePacketView(c, raw, false).value == PacketView(TypeCode(p.ptype), p.flag, p.payload, IsSessionless(p.ptype))
  {
    hide U32At, TypeOf, TypeCode;
    if |raw| >= 2 && TypeOf(raw[1]).Some? {
      TypeCodes(Message, raw[1]);
      SessionlessCodes(raw[1]);
    }
  }

  lemma SessionlessCodes(code: byte)
    requires TypeOf(code).Some?
    ensures IsSessionlessCode(code) == IsSessionless(TypeOf(code).value)
  {
  }

  /** What the device builds is what the host encodes. */
  lemma BuildersAgree(c: DeviceContext, p: Packet, capacity: nat)
    requires |p.payload| <= 0xFFFF_FFFF && HeaderSize(p.ptype) + |p.payload| <= capacity
    requires !IsSessionless(p.ptype) ==> c.isOpened && c.hasSessionId && p.sessionId == Some(c.sessionId)
    ensures Encode(p).Ok? && BuildPacket(c, TypeCode(p.ptype), p.flag, p.payload, capacity) == Ok(Encode(p).value)
  {
    TypeCodes(p.ptype, TypeCode(p.ptype));
    SessionlessCodes(TypeCode(p.ptype));
  }

  /** With a session match required, the device takes a session packet only if it carries its own
      session id. */
  lemma DeviceMatchesId(c: DeviceContext, p: Packet)
    requires |p.payload| <= 0xFFFF_FFFF && c.isOpened && c.hasSessionId && |c.sessionId| == SESSION_ID_SIZE
    ensures Encode(p).Ok?
    ensures ParsePacketView(c, Encode(p).value, true).Ok? <==>
      IsSessionless(p.ptype) || p.sessionId == Some(c.sessionId)
    ensures ParsePacketView(c, Encode(p).value, true).Ok? ==>
      ParsePacketView(c, Encode(p).value, true).value ==
      PacketView(TypeCode(p.ptype), p.flag, p.payload, IsSessionless(p.ptype))
  {
    hide U32At, U32Be, TypeOf, TypeCode, Decode;
    var raw := Encode(p).value;
    DecodeEncode(p);
    ParsersAgree(c, raw);
    TypeCodes(p.ptype, TypeCode(p.ptype));
    SessionlessCodes(TypeCode(p.ptype));
    if !IsSessionless(p.ptype) {
      assert raw[3..19] == IdBytes(p);
    }
  }

  // ---------------------------------------------------------------------------
  // The host's session client

  /** Packets as the frame link delivers and takes them. */
  class PacketPort {
    var inbound: seq<Result<bytes, Frames.FrameError>>
    var outbound: seq<bytes>
    var outcomes: seq<Option<Frames.FrameError>>

    constructor (inbound: seq<Result<bytes, Frames.FrameError>>, outcomes: seq<Option<Frames.FrameError>>)
      ensures this.inbound == inbound && outbound == [] && this.outcomes == outcomes
    {
      this.inbound, this.outbound, this.outcomes := inbound, [], outcomes;
    }

    method Receive() returns (r: Result<bytes, Frames.FrameError>)
      modifies this
      ensures outbound == old(outbound) && outcomes == old(outcomes)
      ensures old(inbound) == [] ==> r == Err(Frames.TimeoutError) && inbound == []
      ensures old(inbound) != [] ==> r == old(inbound)[0] && inbound == old(inbound)[1..]
    {
      if inbound == [] {
        return Err(Frames.TimeoutError);
      }
      r, inbound := inbound[0], inbound[1..];
    }

    /** A send succeeds when its outcome says so, and otherwise fails with the error it names. */
    method Send(packet: bytes) returns (r: Result<(), Frames.FrameError>)
      modifies this
      ensures inbound == old(inbound)
      ensures outcomes == if old(outcomes) == [] then [] else old(outcomes)[1..]
      ensures if SendWorks(old(outcomes)) then r == Ok(()) && outbound == old(outbound) + [packet]
        else r.Err? && outbound == old(outbound)
    {
      var outcome := if outcomes == [] then Some(Frames.IoError) else outcomes[0];
      outcomes := if outcomes == [] then [] else outcomes[1..];
      if outcome.Some? {
        return Err(outcome.value);
      }
      outbound := outbound + [packet];
      r := Ok(());
    }
  }

  /** The next send goes through. */
  predicate SendWorks(outcomes: seq<Option<Frames.FrameError>>) {
    outcomes != [] && outcomes[0].None?
  }

  /** What the first packet from the device means for opening a session: its uuid, or why not. */
  function Greeting(inbound: seq<Result<bytes, Frames.FrameError>>): Result<bytes, SessionError> {
    if inbound == [] || inbound[0].Err? then Err(SessionOpen)
    else
      match Decode(inbound[0].value)
      case Err(e) => Err(e)
      case Ok(p) =>
        if IsAlert(p.ptype) then Err(SessionAlert(p.payload))
        else if p.ptype != DeviceHello then Err(SessionOpen)
        else
          match ParseDeviceHello(p.payload)
          case Err(e) => Err(e)
          case Ok(info) => if info.requireAuth then Err(SessionOpen) else Ok(info.uuid)
  }

  /** A greeting is taken exactly when it is the encoding of a DEVICE_HELLO built for this uuid without
      authentication, with any flag. */
  lemma GreetingExact(raw: bytes, uuid: bytes)
    ensures Greeting([Ok(raw)]) == Ok(uuid) <==>
      BuildDeviceHello(uuid, false).Ok?
      && exists flag: byte :: Encode(PacketOf(DeviceHello, BuildDeviceHello(uuid, false).value, flag, None)) == Ok(raw)
  {
    hide Encode, Decode;
    if Greeting([Ok(raw)]) == Ok(uuid) {
      var p := Decode(raw).value;
      EncodeDecode(raw);
      HelloCanonical(p.payload, uuid);
      assert p == PacketOf(DeviceHello, BuildDeviceHello(uuid, false).value, p.flag, None);
    }
    if BuildDeviceHello(uuid, false).Ok? {
      var payload := BuildDeviceHello(uuid, false).value;
      HellosUnderstood([], uuid, false);
      if flag: byte :| Encode(PacketOf(DeviceHello, payload, flag, None)) == Ok(raw) {
        DecodeEncode(PacketOf(DeviceHello, payload, flag, None));
      }
    }
  }

  /** What `receive_message` does with an inbound packet in an open session. */
  datatype Verdict = Deliver(payload: bytes) | Alerted(reason: bytes) | PeerClosed | Violation

  function Judge(sessionId: bytes, p: Packet): Verdict {
    if p.sessionId.Some? && p.sessionId.value != sessionId then Violation
    else if IsAlert(p.ptype) then Alerted(p.payload)
    else if IsBye(p.ptype) then PeerClosed
    else if p.ptype != Message then Violation
    else Deliver(p.payload)
  }

  /** A payload is delivered exactly when the bytes received are the encoding of a MESSAGE packet with
      the current session id. */
  lemma DeliversOwnMessages(sessionId: bytes, raw: bytes, payload: bytes)
    requires |sessionId| == SESSION_ID_SIZE
    ensures (Decode(raw).Ok? && Judge(sessionId, Decode(raw).value) == Deliver(payload))
       <==> exists flag: byte :: Encode(PacketOf(Message, payload, flag, Some(sessionId))) == Ok(raw)
  {
    hide Encode, Decode;
    if Decode(raw).Ok? && Judge(sessionId, Decode(raw).value) == Deliver(payload) {
      EncodeDecode(raw);
      assert Decode(raw).value == PacketOf(Message, payload, Decode(raw).value.flag, Some(sessionId));
    }
    if flag: byte :| Encode(PacketOf(Message, payload, flag, Some(sessionId))) == Ok(raw) {
      EncodedPayloadFits(PacketOf(Message, payload, flag, Some(sessionId)));
      DecodeEncode(PacketOf(Message, payload, flag, Some(sessionId)));
    }
  }

  /** The other two verdicts that matter: the peer has closed exactly when the bytes received are the encoding
      of a bye with the current session id, whatever its payload; and it has alerted, with a reason, exactly
      when they are the encoding of an alert with that payload. Both types of either will do. */
  lemma JudgeExact(sessionId: bytes, raw: bytes, reason: bytes)
    requires |sessionId| == SESSION_ID_SIZE
    ensures (Decode(raw).Ok? && Judge(sessionId, Decode(raw).value) == PeerClosed) <==> SaysBye(sessionId, raw)
    ensures (Decode(raw).Ok? && Judge(sessionId, Decode(raw).value) == Alerted(reason)) <==> SaysAlert(raw, reason)
  {
    hide Encode, Decode;
    if Decode(raw).Ok? {
      var p := Decode(raw).value;
      EncodeDecode(raw);
      assert IsEncoding(raw, p.ptype, p.payload, p.flag, p.sessionId);
    }
    forall t, payload, flag: byte, id | IsEncoding(raw, t, payload, flag, id)
      ensures Decode(raw) == Ok(PacketOf(t, payload, flag, id))
    {
      EncodedPayloadFits(PacketOf(t, payload, flag, id));
      DecodeEncode(PacketOf(t, payload, flag, id));
    }
  }

  /** The bytes are the wire form of this packet. */
  predicate IsEncoding(raw: bytes, t: PacketType, payload: bytes, flag: byte, id: Option<bytes>) {
    WellFormed(PacketOf(t, payload, flag, id)) && Encode(PacketOf(t, payload, flag, id)) == Ok(raw)
  }

  ghost predicate SaysBye(sessionId: bytes, raw: bytes) {
    exists t, payload, flag: byte :: t in {PcBye, DeviceBye} && IsEncoding(raw, t, payload, flag, Some(sessionId))
  }

  ghost predicate SaysAlert(raw: bytes, reason: bytes) {
    exists t, flag: byte :: t in {PcAlert, DeviceAlert} && IsEncoding(raw, t, reason, flag, None)
  }

  /** The packets that end the session with this id: its byes, and all alerts. */
  ghost predicate EndsSession(sessionId: bytes, raw: bytes) {
    SaysBye(sessionId, raw) || exists reason :: SaysAlert(raw, reason)
  }

  lemma EndsExact(sessionId: bytes, raw: bytes)
    requires |sessionId| == SESSION_ID_SIZE
    ensures EndsSession(sessionId, raw) <==>
      Decode(raw).Ok? && var v := Judge(sessionId, Decode(raw).value); v == PeerClosed || v.Alerted?
  {
    hide Encode, Decode, Judge, SaysBye, SaysAlert;
    forall reason ensures
        (Decode(raw).Ok? && Judge(sessionId, Decode(raw).value) == Alerted(reason)) <==> SaysAlert(raw, reason) {
      JudgeExact(sessionId, raw, reason);
    }
    JudgeExact(sessionId, raw, []);
  }

  /** What a greeting is refused for: an alert from either side is passed on with its reason; bytes that are no
      packet, and a hello whose payload is none, are a violation; everything else means no session. */
  lemma GreetingRefused(raw: bytes, reason: bytes)
    ensures Greeting([Ok(raw)]) == Err(SessionAlert(reason)) <==> SaysAlert(raw, reason)
    ensures Decode(raw).Err? ==> Greeting([Ok(raw)]) == Err(SessionProtocol)
    ensures Decode(raw).Ok? && !IsAlert(Decode(raw).value.ptype) && Decode(raw).value.ptype != DeviceHello ==>
      Greeting([Ok(raw)]) == Err(SessionOpen)
    ensures forall uuid, flag: byte | BuildDeviceHello(uuid, true).Ok? ::
      IsEncoding(raw, DeviceHello, BuildDeviceHello(uuid, true).value, flag, None) ==>
      Greeting([Ok(raw)]) == Err(SessionOpen)
  {
    hide Encode, Decode;
    DecodeErrors(raw);
    if Decode(raw).Ok? {
      var p := Decode(raw).value;
      EncodeDecode(raw);
      assert IsEncoding(raw, p.ptype, p.payload, p.flag, p.sessionId);
    }
    forall t, payload, flag: byte, id | IsEncoding(raw, t, payload, flag, id)
      ensures Decode(raw) == Ok(PacketOf(t, payload, flag, id))
    {
      EncodedPayloadFits(PacketOf(t, payload, flag, id));
      DecodeEncode(PacketOf(t, payload, flag, id));
    }
    forall uuid ensures BuildDeviceHello(uuid, true).Ok? ==>
        ParseDeviceHello(BuildDeviceHello(uuid, true).value) == Ok(HelloInfo(uuid, true)) {
      HellosUnderstood([], uuid, true);
    }
  }

  lemma DecodeErrors(raw: bytes)
    ensures Decode(raw).Err? ==> Decode(raw).error == SessionProtocol
  {
    hide U32At;
  }

  lemma EncodedPayloadFits(p: Packet)
    requires Encode(p).Ok?
    ensures |p.payload| <= 0xFFFF_FFFF
  {
  }

  class FactorySessionClient {
    const port: PacketPort
    var isOpened: bool
    var sessionId: Option<bytes>
    var deviceUuid: Option<bytes>
    var requireAuth: bool

    /** Open means: a session id of the right size is known, the device has introduced itself, and it
        does not want authentication. */
    ghost predicate Valid()
      reads this
    {
      && (isOpened <==> sessionId.Some?) && (isOpened <==> deviceUuid.Some?)
      && (sessionId.Some? ==> |sessionId.value| == SESSION_ID_SIZE) && !requireAuth
    }

    ghost predicate Closed()
      reads this
    {
      !isOpened && sessionId == None && deviceUuid == None && !requireAuth
    }

    constructor (port: PacketPort)
      ensures this.port == port && Valid() && Closed()
    {
      this.port := port;
      isOpened, sessionId, deviceUuid, requireAuth := false, None, None, false;
    }

    method Reset()
      modifies this
      ensures Closed()
    {
      isOpened, sessionId, deviceUuid, requireAuth := false, None, None, false;
    }

    /** `open`; `newId` is the random session id. It succeeds only on a well-formed DEVICE_HELLO that
        asks for no authentication, and then the device has been sent the new id. */
    method Open(newId: bytes) returns (r: Result<(), SessionError>)
      requires Valid() && |newId| == SESSION_ID_SIZE
      modifies this, port
      ensures Valid()
      ensures old(isOpened) ==> r == Ok(()) && unchanged(this) && unchanged(port)
      ensures r.Err? ==> Closed() && port.outbound == old(port.outbound)
      ensures !old(isOpened) ==>
        match Greeting(old(port.inbound))
        case Err(e) => r == Err(e)
        case Ok(uuid) =>
          if !SendWorks(old(port.outcomes)) then r == Err(SessionOpen)
          else
            && r == Ok(()) && sessionId == Some(newId) && deviceUuid == Some(uuid)
            && Encode(PacketOf(PcHello, [0x01, 18] + newId, 0, None)).Ok?
            && port.outbound == old(port.outbound) + [Encode(PacketOf(PcHello, [0x01, 18] + newId, 0, None)).value]
    {
      hide Decode, ParseDeviceHello;
      if isOpened {
        return Ok(());
      }
      Reset();
      var received := port.Receive();
      if received.Err? {
        return Err(SessionOpen);
      }
      var decoded := Decode(received.value);
      if decoded.Err? {
        return Err(decoded.error);
      }
      var packet := decoded.value;
      if IsAlert(packet.ptype) {
        return Err(SessionAlert(packet.payload));
      }
      if packet.ptype != DeviceHello {
        return Err(SessionOpen);
      }
      var info := ParseDeviceHello(packet.payload);
      if info.Err? {
        return Err(info.error);
      }
      deviceUuid, requireAuth := Some(info.value.uuid), info.value.requireAuth;
      if requireAuth {
        Reset();
        return Err(SessionOpen);
      }
      var payload := BuildPcHello(newId).value;
      var sent := port.Send(Encode(PacketOf(PcHello, payload, 0, None)).value);
      if sent.Err? {
        Reset();
        return Err(SessionOpen);
      }
      sessionId, isOpened := Some(newId), true;
      r := Ok(());
    }

    /** `close`: says goodbye if there is a session, and ends it whether or not that succeeds. */
    method Close()
      requires Valid()
      modifies this, port
      ensures Valid() && Closed()
      ensures !old(isOpened) ==> unchanged(port)
      ensures old(isOpened) ==>
        port.outbound == old(port.outbound)
          + if SendWorks(old(port.outcomes)) then [Encode(PacketOf(PcBye, [], 0, old(sessionId))).value] else []
    {
      if !isOpened && sessionId.None? {
        Reset();
        return;
      }
      if sessionId.Some? {
        var sent := port.Send(Encode(PacketOf(PcBye, [], 0, sessionId)).value);
      }
      Reset();
    }

    /** `send_message`: what goes out is the MESSAGE packet of the current session, or the session ends. */
    method SendMessage(payload: bytes) returns (r: Result<(), SessionError>)
      requires Valid()
      modifies this, port
      ensures Valid()
      ensures !old(isOpened) ==> r == Err(SessionState) && unchanged(this) && unchanged(port)
      ensures old(isOpened) ==> (r.Ok? <==> |payload| <= 0xFFFF_FFFF && SendWorks(old(port.outcomes)))
      ensures r.Ok? ==>
        && unchanged(this) && old(isOpened)
        && Encode(PacketOf(Message, payload, 0, sessionId)).Ok?
        && port.outbound == old(port.outbound) + [Encode(PacketOf(Message, payload, 0, sessionId)).value]
      ensures old(isOpened) && r.Err? ==> r.error == SessionProtocol && Closed() && port.outbound == old(port.outbound)
    {
      if !isOpened || sessionId.None? {
        return Err(SessionState);
      }
      var raw := Encode(PacketOf(Message, payload, 0, sessionId));
      if raw.Err? {
        Reset();
        return Err(SessionProtocol);
      }
      var sent := port.Send(raw.value);
      if sent.Err? {
        Reset();
        return Err(SessionProtocol);
      }
      r := Ok(());
    }

    /** `receive_message`: returns a payload exactly when the packet received is judged deliverable; a
        link failure, an alert or a bye of this session ends it, any other packet is refused and the session
        goes on. */
    method ReceiveMessage() returns (r: Result<bytes, SessionError>)
      requires Valid()
      modifies this, port
      ensures Valid() && port.outbound == old(port.outbound)
      ensures !old(isOpened) ==> r == Err(SessionState) && unchanged(this) && unchanged(port)
      ensures old(isOpened) && (old(port.inbound) == [] || old(port.inbound)[0].Err?) ==>
        r == Err(SessionProtocol) && Closed()
      ensures old(isOpened) && old(port.inbound) != [] && old(port.inbound)[0].Ok? ==>
        match Decode(old(port.inbound)[0].value)
        case Err(e) => r == Err(e) && unchanged(this)
        case Ok(packet) =>
          match Judge(old(sessionId).value, packet)
          case Deliver(payload) => r == Ok(payload) && unchanged(this)
          case Alerted(reason) => r == Err(SessionAlert(reason)) && Closed()
          case PeerClosed => r == Err(SessionClosed) && Closed()
          case Violation => r == Err(SessionProtocol) && unchanged(this)
      ensures old(isOpened) && old(port.inbound) != [] && old(port.inbound)[0].Ok? ==>
        (Closed() <==> EndsSession(old(sessionId).value, old(port.inbound)[0].value))
    {
      hide Decode, EndsSession;
      if isOpened && port.inbound != [] && port.inbound[0].Ok? {
        EndsExact(sessionId.value, port.inbound[0].value);
      }
      if !isOpened || sessionId.None? {
        return Err(SessionState);
      }
      var received := port.Receive();
      if received.Err? {
        Reset();
        return Err(SessionProtocol);
      }
      var decoded := Decode(received.value);
      if decoded.Err? {
        return Err(decoded.error);
      }
      var packet := decoded.value;
      if packet.ptype != DeviceHello && !IsSessionless(packet.ptype) && packet.sessionId != sessionId {
        return Err(SessionProtocol);
      }
      if IsAlert(packet.ptype) {
        Reset();
        return Err(SessionAlert(packet.payload));
      }
      if IsBye(packet.ptype) {
        Reset();
        return Err(SessionClosed);
      }
      if packet.ptype != Message {
        return Err(SessionProtocol);
      }
      r := Ok(packet.payload);
    }
  }
}
