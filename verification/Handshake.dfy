/** How a session comes about (pc/src/session/client.py, `open`; device/src/factory_session.c,
    `factory_session_open`): the device's greeting, the host's answer with the session id, and a first message
    under it. */
module Handshake {
  import opened Bytes
  import opened Frames
  import opened Reader
  import opened DeviceUart
  import Fragmenter
  import Session
  import DeviceSession
  import EndToEnd

  /** A device's greeting, without authentication, is what the host's client wants to hear. */
  lemma HelloIsGreeting(uuid: bytes)
    requires 1 <= |uuid| <= 255
    ensures Session.Greeting([Ok(DeviceSession.Hello(uuid, false))]) == Ok(uuid)
  {
    hide Session.Encode, Session.Greeting;
    var payload := [|uuid|] + uuid + [0];
    assert Session.BuildDeviceHello(uuid, false) == Ok(payload);
    Session.DecodeEncode(Session.PacketOf(Session.DeviceHello, payload, 0, None));
    Session.GreetingExact(DeviceSession.Hello(uuid, false), uuid);
  }

  /** The host's hello is a greeting with its session id to the device. */
  lemma PcHelloGreets(id: bytes, raw: bytes)
    requires |id| == Session.SESSION_ID_SIZE
    requires Session.Encode(Session.PacketOf(Session.PcHello, [0x01, 18] + id, 0, None)) == Ok(raw)
    ensures DeviceSession.Greets(DeviceSession.Got(raw), id)
  {
    hide Session.Encode;
    var payload := [0x01, 18] + id;
    assert DeviceSession.IsPacket(raw, Session.PcHello, payload);
    assert payload == [0x01, 18 as byte] + id + [];
    assert DeviceSession.CarriesId(payload, id);
  }

  /** A list of things received whose first deciding one is that greeting. */
  lemma GreetingDecides(before: seq<DeviceSession.Received>, w: DeviceSession.Received,
                        after: seq<DeviceSession.Received>, id: bytes)
    requires DeviceSession.Greets(w, id)
    requires forall i :: 0 <= i < |before| ==> !DeviceSession.Decides(before[i])
    ensures DeviceSession.OpenedBy(before + [w] + after, id)
  {
    hide DeviceSession.Greets, DeviceSession.Decides;
    DeviceSession.GreetsIs(w, id);
    var waits := before + [w] + after;
    assert waits[|before|] == w;
    assert forall i :: 0 <= i < |before| ==> waits[i] == before[i];
    assert DeviceSession.FirstToDecide(waits, |before|);
  }

  /** Both ends open: the device greets, the host takes the greeting and answers with a new id, and the device
      takes the answer, whatever of no consequence it receives before it and whatever comes after. Both then
      hold one session, under the host's id, and the host knows the device. */
  method OpenBoth(client: Session.FactorySessionClient, device: DeviceSession.DeviceSession, uuid: bytes, id: bytes,
                  before: seq<DeviceSession.Received>, after: seq<DeviceSession.Received>)
    requires client.Valid() && !client.isOpened && !device.isOpened
    requires 1 <= |uuid| <= 255 && |id| == Session.SESSION_ID_SIZE
    requires forall i :: 0 <= i < |before| ==> !DeviceSession.Decides(before[i])
    modifies client, client.port, device
    ensures client.Valid() && client.isOpened && client.sessionId == Some(id) && client.deviceUuid == Some(uuid)
    ensures device.isOpened && device.hasSessionId && device.sessionId == id && !device.isError && !device.requireAuth
    ensures device.events == old(device.events) + [DeviceSession.EventOpened]
    ensures device.outbound == old(device.outbound) + [DeviceSession.Hello(uuid, false)]
  {
    hide Session.Encode, Session.Greeting, Session.Decode, DeviceSession.OpenCall, DeviceSession.Decides;
    hide DeviceSession.Greets, DeviceSession.OpenedBy, DeviceSession.Hello;
    HelloIsGreeting(uuid);
    client.port.inbound, client.port.outcomes := [Ok(DeviceSession.Hello(uuid, false))], [None];
    var r := client.Open(id);
    var raw := client.port.outbound[|client.port.outbound| - 1];
    PcHelloGreets(id, raw);
    var w := DeviceSession.Got(raw);
    GreetingDecides(before, w, after, id);
    ghost var s := device.View();
    var code := device.Open(false, Some(uuid), true, before + [w] + after);
    DeviceSession.OpenExact(s, false, Some(uuid), true, before + [w] + after, id);
  }

  /** And a first message through all layers below arrives at the device as what it was. */
  method FirstMessage(uuid: bytes, id: bytes, before: seq<DeviceSession.Received>, payload: bytes, noise: seq<bytes>,
                      readTurns: seq<Turn>, writeTurns: seq<Turn>)
    returns (delivered: Option<bytes>)
    requires 1 <= |uuid| <= 255 && |id| == Session.SESSION_ID_SIZE
    requires forall i :: 0 <= i < |before| ==> !DeviceSession.Decides(before[i])
    requires Session.SESSION_HEADER_SIZE + |payload| <= EndToEnd.CAPACITY
    requires |noise| == Fragmenter.FrameCount(Session.SESSION_HEADER_SIZE + |payload|)
    requires forall i :: 0 <= i < |noise| ==> Quiet(noise[i])
    ensures delivered.Some? ==> delivered.value == payload
    ensures
      var c := Session.DeviceContext(true, true, id);
      (&& Prompt(readTurns)
       && |readTurns| >= |Wire(EndToEnd.Segments(Fragmenter.Plan(EndToEnd.HostPacket(c, payload)), noise))|
       && Prompt(writeTurns) && |writeTurns| > EndToEnd.REPLY_SIZE * |noise|) ==>
      delivered.Some?
  {
    hide DeviceSession.Decides, Fragmenter.FrameCount, Fragmenter.Plan, Wire, Prompt, Quiet;
    var port := new Session.PacketPort([], []);
    var client := new Session.FactorySessionClient(port);
    var device := new DeviceSession.DeviceSession();
    OpenBoth(client, device, uuid, id, before, []);
    var c := Session.DeviceContext(device.isOpened, device.hasSessionId, device.sessionId);
    delivered := EndToEnd.HostToDevice(client, c, payload, noise, readTurns, writeTurns);
  }
}
