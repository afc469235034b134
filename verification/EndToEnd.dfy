/** A message from one application to the other, through every layer of both ends: session packet,
    fragments, wire bytes with line noise, resynchronising reader, receive loop, session packet again. */
module EndToEnd {
  import opened Bytes
  import opened Frames
  import opened Fragmenter
  import opened Assembler
  import opened Reader
  import opened DeviceUart
  import Link
  import StopAndWait
  import DeviceReactions
  import DeviceLink
  import Session

  const CAPACITY: nat := Session.PACKET_MAX_SIZE

  /** The frames with the noise that precedes each of them on the line. */
  function Segments(frames: seq<Frame>, noise: seq<bytes>): (r: seq<Segment>)
    requires |noise| == |frames|
    ensures |r| == |frames|
  {
    seq(|frames|, i requires 0 <= i < |frames| => Segment(noise[i], frames[i]))
  }

  /** The wire bytes, frame by frame with the noise in front. */
  method OnTheLine(ghost frames: seq<Frame>, noise: seq<bytes>, raw: seq<bytes>) returns (line: bytes)
    requires |noise| == |frames| == |raw|
    requires forall k :: 0 <= k < |raw| ==> raw[k] == Encode(frames[k])
    ensures line == Wire(Segments(frames, noise))
  {
    hide Encode;
    line := [];
    var i := |raw|;
    ghost var segments := Segments(frames, noise);
    while i > 0
      invariant 0 <= i <= |raw| && line == Wire(segments[i..])
    {
      i := i - 1;
      assert segments[i..][1..] == segments[i + 1..];
      line := noise[i] + raw[i] + line;
    }
    assert segments[0..] == segments;
  }

  // ---------------------------------------------------------------------------
  // From the device to the host

  /** The packet the device builds for a message of its open session. */
  function DevicePacket(c: Session.DeviceContext, payload: bytes): (packet: bytes)
    requires c.isOpened && c.hasSessionId && |c.sessionId| == Session.SESSION_ID_SIZE
    requires Session.SESSION_HEADER_SIZE + |payload| <= CAPACITY
    ensures |packet| == Session.SESSION_HEADER_SIZE + |payload|
  {
    Session.BuildPacket(c, 0x01, 0, payload, CAPACITY).value
  }

  /** The host's client delivers, from the device's packet, the payload. */
  lemma DevicePacketDelivers(c: Session.DeviceContext, payload: bytes)
    requires c.isOpened && c.hasSessionId && |c.sessionId| == Session.SESSION_ID_SIZE
    requires Session.SESSION_HEADER_SIZE + |payload| <= CAPACITY
    ensures Session.Decode(DevicePacket(c, payload)).Ok?
    ensures Session.Judge(c.sessionId, Session.Decode(DevicePacket(c, payload)).value) == Session.Deliver(payload)
  {
    hide Session.Decode, Session.Encode;
    var p: Session.Packet := Session.PacketOf(Session.Message, payload, 0, Some(c.sessionId));
    Session.BuildersAgree(c, p, CAPACITY);
    Session.DecodeEncode(p);
  }

  /** Through the first `k` frames of a plan the host's receiver answers once per frame, refuses none, and
      is where the plan says. */
  lemma {:induction false} PlanReacts(packet: bytes, k: nat)
    requires 1 <= |packet| <= CAPACITY && k <= FrameCount(|packet|)
    ensures Link.ReactAll(Fresh(CAPACITY), Plan(packet)[..k]).Some?
    ensures var (sent, s) := Link.ReactAll(Fresh(CAPACITY), Plan(packet)[..k]).value;
      && |sent| == k && AcceptAll(Fresh(CAPACITY), Plan(packet)[..k]) == Some(s)
      && (s.finished <==> k == FrameCount(|packet|)) && (s.finished ==> s.buffer == packet)
      && (k < FrameCount(|packet|) ==> Link.React(s, Plan(packet)[k]).failure == None)
  {
    hide FrameCount, FrameAt, Plan, Accept, AcceptAll, Link.React, Link.ReactAll;
    var c := StopAndWait.Config(packet, CAPACITY, 1, true);
    PlanPrefixState(packet, CAPACITY, k);
    if k == 0 {
      Link.ReactNothing(Fresh(CAPACITY));
      NoFrames(packet);
    } else {
      PlanReacts(packet, k - 1);
      var (sent, s) := Link.ReactAll(Fresh(CAPACITY), Plan(packet)[..k - 1]).value;
      assert Plan(packet)[..k] == Plan(packet)[..k - 1] + [Plan(packet)[k - 1]];
      Link.ReactAllSnoc(Fresh(CAPACITY), Plan(packet)[..k - 1], Plan(packet)[k - 1]);
      StopAndWait.ReactToPlan(c, s, k - 1, k - 1);
    }
    if k < FrameCount(|packet|) {
      StopAndWait.ReactToPlan(c, Link.ReactAll(Fresh(CAPACITY), Plan(packet)[..k]).value.1, k, k);
    }
  }

  lemma NoFrames(packet: bytes)
    requires 1 <= |packet| <= CAPACITY
    ensures Plan(packet)[..0] == [] && AcceptAll(Fresh(CAPACITY), []) == Some(Fresh(CAPACITY))
  {
  }

  /** The host's receive loop, given the frames of a plan and able to answer them, returns the packet. */
  method HostReceives(frames: seq<Frame>, ghost packet: bytes) returns (received: bytes)
    requires 1 <= |packet| <= CAPACITY && frames == Plan(packet)
    ensures received == packet
  {
    hide FrameCount, FrameAt, Plan, Accept, AcceptAll, Link.React, Link.ReactAll;
    var port := new Link.FramePort(seq(|frames|, i requires 0 <= i < |frames| => Ok(frames[i])), |frames|);
    var link := new Link.FrameLink(port, CAPACITY, 3);
    ghost var incoming := link.Incoming();
    var r, seen := link.ReceivePacket();
    SeenIsPrefix(frames, incoming, seen);
    PlanReacts(packet, |seen|);
    if seen != [] {
      PlanReacts(packet, |seen| - 1);
      assert seen[..|seen| - 1] == Plan(packet)[..|seen| - 1];
    }
    received := r.value;
  }

  lemma SeenIsPrefix(frames: seq<Frame>, incoming: seq<Result<Frame, FrameError>>, seen: seq<Frame>)
    requires |incoming| == |frames| && forall i :: 0 <= i < |frames| ==> incoming[i] == Ok(frames[i])
    requires |seen| <= |incoming| && Link.AreReads(incoming[..|seen|], seen)
    ensures seen == frames[..|seen|]
  {
    assert forall i :: 0 <= i < |seen| ==> incoming[..|seen|][i] == Ok(seen[i]);
  }

  /** A message from the device, every byte of the way: the frames go through the device's storage, onto
      a line with noise in front of each, off the line in whatever pieces the stream hands out, up
      through the host's receive loop, and to the client's `receive_message`. What it returns is the
      payload; only the deadline can prevent it, and not if the line is productive enough. */
  method DeviceToHost(c: Session.DeviceContext, payload: bytes, noise: seq<bytes>, schedule: seq<nat>,
                      client: Session.FactorySessionClient)
    returns (delivered: Option<bytes>)
    requires c.isOpened && c.hasSessionId && |c.sessionId| == Session.SESSION_ID_SIZE
    requires client.Valid() && client.isOpened && client.sessionId == Some(c.sessionId)
    requires Session.SESSION_HEADER_SIZE + |payload| <= CAPACITY
    requires |noise| == FrameCount(Session.SESSION_HEADER_SIZE + |payload|)
    requires forall i :: 0 <= i < |noise| ==> Quiet(noise[i])
    modifies client, client.port
    ensures delivered.Some? ==> delivered.value == payload
    ensures Productive(schedule) >= |Wire(Segments(Plan(DevicePacket(c, payload)), noise))| ==> delivered.Some?
  {
    hide FrameCount, FrameAt, Accept, AcceptAll, Wire, Session.Decode, Session.Judge, Encode, Productive;
    var packet := DevicePacket(c, payload);
    var buffer := new byte[CAPACITY](i => if 0 <= i < |packet| then packet[i] else 0);
    assert buffer[..|packet|] == packet;
    var frame := new byte[MAX_SIZE](_ => 0);
    var raw := DrainDevice(buffer, |packet|, frame);
    assert buffer[..|packet|] == packet;
    var line := OnTheLine(Plan(packet), noise, raw);
    var stream := new ByteStream(line, schedule);
    var frames, failure := stream.ReadFrames(|raw|, Segments(Plan(packet), noise));
    if failure.Some? {
      return None;
    }
    assert frames == Plan(packet);
    var received := HostReceives(frames, packet);
    DevicePacketDelivers(c, payload);
    client.port.inbound := [Ok(received)];
    var r := client.ReceiveMessage();
    delivered := Some(r.value);
  }

  // ---------------------------------------------------------------------------
  // From the host to the device

  /** The wire forms of the frames of a plan. */
  function EncodedPlan(packet: bytes): (r: seq<bytes>)
    requires 1 <= |packet| <= CAPACITY
    ensures |r| == FrameCount(|packet|)
  {
    seq(|Plan(packet)|, i requires 0 <= i < |Plan(packet)| => Encode(Plan(packet)[i]))
  }

  lemma PlanIsWhole(packet: bytes)
    requires 1 <= |packet| <= CAPACITY
    ensures DeviceLink.AllWhole(EncodedPlan(packet))
  {
    hide Plan, Encode, FrameCount;
    forall i | 0 <= i < |EncodedPlan(packet)| ensures WholeFrame(EncodedPlan(packet)[i]) {
      DeviceReactions.WholeEncode(Plan(packet)[i]);
    }
  }

  /** Through the first `k` frames of a plan the device's receiver holds what the host's holds, and goes on. */
  lemma {:induction false} PlanReactsOnDevice(packet: bytes, k: nat)
    requires 1 <= |packet| <= CAPACITY && k <= FrameCount(|packet|) && DeviceLink.AllWhole(EncodedPlan(packet))
    ensures InStep(packet, k, Link.ReactAll(Fresh(CAPACITY), Plan(packet)[..k]),
                   DeviceReactions.ReactAll(DeviceFresh(CAPACITY), EncodedPlan(packet)[..k]))
  {
    hide FrameCount, Plan, Encode, Link.React, Link.ReactAll, DeviceReactions.React, DeviceReactions.ReactAll;
    hide Matches, WholeFrame;
    var raws := EncodedPlan(packet);
    PlanReacts(packet, k);
    if k == 0 {
      NothingYet(packet);
    } else {
      PlanReactsOnDevice(packet, k - 1);
      PlanReacts(packet, k - 1);
      var s := Link.ReactAll(Fresh(CAPACITY), Plan(packet)[..k - 1]).value.1;
      var d := DeviceReactions.ReactAll(DeviceFresh(CAPACITY), raws[..k - 1]).value.1;
      assert Plan(packet)[..k] == Plan(packet)[..k - 1] + [Plan(packet)[k - 1]];
      assert raws[..k] == raws[..k - 1] + [raws[k - 1]];
      Link.ReactAllSnoc(Fresh(CAPACITY), Plan(packet)[..k - 1], Plan(packet)[k - 1]);
      DeviceReactions.ReactAllSnoc(DeviceFresh(CAPACITY), raws[..k - 1], raws[k - 1]);
      PlannedFrame(packet, k - 1, s, d);
    }
    if k < FrameCount(|packet|) {
      PlannedFrame(packet, k, Link.ReactAll(Fresh(CAPACITY), Plan(packet)[..k]).value.1,
                   DeviceReactions.ReactAll(DeviceFresh(CAPACITY), raws[..k]).value.1);
    }
  }

  /** Both runs go on to this point, end up with the same, and the device will go on from here. */
  predicate InStep(packet: bytes, k: nat, host: Option<(seq<Frame>, Assembly)>,
                   device: Option<(seq<Frame>, DeviceAssembly)>)
    requires 1 <= |packet| <= CAPACITY && k <= FrameCount(|packet|) && DeviceLink.AllWhole(EncodedPlan(packet))
  {
    && host.Some? && device.Some? && Matches(host.value.1, device.value.1)
    && (k < FrameCount(|packet|) ==> DeviceReactions.React(device.value.1, EncodedPlan(packet)[k]).code == 0)
  }

  lemma NothingYet(packet: bytes)
    requires 1 <= |packet| <= CAPACITY
    ensures EncodedPlan(packet)[..0] == []
    ensures DeviceReactions.ReactAll(DeviceFresh(CAPACITY), []) == Some(([], DeviceFresh(CAPACITY)))
    ensures Plan(packet)[..0] == [] && Link.ReactAll(Fresh(CAPACITY), []) == Some(([], Fresh(CAPACITY)))
    ensures Matches(Fresh(CAPACITY), DeviceFresh(CAPACITY))
  {
  }

  /** On the next planned frame both receivers do the same. */
  lemma PlannedFrame(packet: bytes, k: nat, s: Assembly, d: DeviceAssembly)
    requires 1 <= |packet| <= CAPACITY && k < FrameCount(|packet|)
    requires AcceptAll(Fresh(CAPACITY), Plan(packet)[..k]) == Some(s) && Matches(s, d)
    ensures WholeFrame(EncodedPlan(packet)[k]) && EncodedPlan(packet)[k] == Encode(Plan(packet)[k])
    ensures var y := DeviceReactions.React(d, EncodedPlan(packet)[k]);
      y.code == 0 && Matches(Link.React(s, Plan(packet)[k]).next, y.next) && !d.finished
  {
    hide FrameCount, Plan, Encode, Link.React, DeviceReactions.React, AcceptAll, WholeFrame, Sequence;
    var c := StopAndWait.Config(packet, CAPACITY, 1, true);
    StopAndWait.ReactToPlan(c, s, k, k);
    StopAndWait.PrefixSound(c, s, k);
    Link.PlanSequence(packet, k);
    FrameCountBounds(|packet|);
    DeviceReactions.ReactsAlike(s, d, Plan(packet)[k]);
  }

  /** One read off a line of frames with quiet noise between them. */
  lemma NextSegment(segments: seq<Segment>, n: nat, h: Heard, left: bytes)
    requires AllQuiet(segments) && n < |segments| && WellHeard(h) && h.noise + h.part + left == Wire(segments[n..])
    ensures h.complete ==> h.part == Encode(segments[n].frame) && left == Wire(segments[n + 1..])
    ensures !h.complete ==> !TooLarge(h.part) && left != []
  {
    hide Encode, Wire, WellHeard, Quiet, TooLarge;
    WireStarts(segments[n..]);
    assert segments[n..][1..] == segments[n + 1..];
    NextOnLine(segments[n].noise, segments[n].frame, Wire(segments[n + 1..]), h, left);
  }

  lemma EmptyWire(segments: seq<Segment>)
    ensures Wire(segments[|segments|..]) == []
  {
  }

  /** All reads off the line so far were whole frames: they are the first frames, and the rest is left. */
  lemma {:induction false} LineHeard(segments: seq<Segment>, heard: seq<DeviceUart.Heard>, left: bytes)
    requires AllQuiet(segments) && DeviceLink.AllHeard(heard) && Wire(segments) == DeviceLink.Consumed(heard) + left
    requires forall i :: 0 <= i < |heard| ==> heard[i].complete
    ensures |heard| <= |segments| && left == Wire(segments[|heard|..])
    ensures |DeviceLink.Parts(heard)| == |heard|
    ensures forall i :: 0 <= i < |heard| ==> DeviceLink.Parts(heard)[i] == Encode(segments[i].frame)
    decreases |heard|
  {
    hide Encode, Wire, WellHeard, Quiet;
    if heard == [] {
      assert [] + left == left && segments[0..] == segments;
    } else {
      var n := |heard| - 1;
      var last := heard[n];
      var before := last.noise + last.part + left;
      assert DeviceLink.Consumed(heard[..n]) + before == DeviceLink.Consumed(heard) + left;
      LineHeard(segments, heard[..n], before);
      EmptyWire(segments);
      WholeIsSome(last);
      NextSegment(segments, n, last, left);
    }
  }

  lemma WholeIsSome(h: DeviceUart.Heard)
    ensures WellHeard(h) && h.complete ==> h.part != []
  {
  }

  /** The device's receive loop on such a line: the packet, or nothing; and the packet if every turn of the
      UART moves something and there are turns enough. */
  method DeviceReceives(line: bytes, ghost packet: bytes, ghost noise: seq<bytes>, readTurns: seq<Turn>,
                        writeTurns: seq<Turn>)
    returns (received: Option<bytes>)
    requires 1 <= |packet| <= CAPACITY && |noise| == FrameCount(|packet|)
    requires forall i :: 0 <= i < |noise| ==> Quiet(noise[i])
    requires line == Wire(Segments(Plan(packet), noise))
    ensures received.Some? ==> received.value == packet
    ensures
      (&& Prompt(readTurns) && |readTurns| >= |line|
       && Prompt(writeTurns) && |writeTurns| > REPLY_SIZE * FrameCount(|packet|)) ==>
      received.Some?
  {
    hide FrameCount, Plan, Wire, Encode, Prompt, GaveUp, Rest, Quiet, WholeFrame, WellHeard;
    hide DeviceLink.Ended, DeviceLink.Spent, DeviceLink.Answered, DeviceLink.Parts, DeviceLink.Consumed, InStep;
    var uart := new Uart(line, readTurns, writeTurns);
    var link := new DeviceLink.DeviceLink(uart, []);
    var buffer := new byte[CAPACITY](_ => 0);
    var assembler := new DeviceAssembler(buffer);
    PlanIsWhole(packet);
    var code, raws, heard, wrote := link.ReceiveOnePacket(assembler);
    ReceivedOnLine(packet, noise, raws, heard, uart.inbound, code, assembler.View(),
                   GaveUp(readTurns, uart.readTurns, uart.inbound == []), GaveUp(writeTurns, uart.writeTurns, false));
    if code != 0 {
      if Prompt(readTurns) && Prompt(writeTurns) && |writeTurns| > REPLY_SIZE * FrameCount(|packet|) {
        if code == -4 {
          LineRanOut(readTurns, line, uart.readTurns, uart.inbound, uart.inbound == []);
        }
        RepliesAreShort(DeviceFresh(CAPACITY), raws, wrote);
        StillTurns(writeTurns, uart.writeTurns, |Flatten(wrote)|);
        if code == -7 {
          PromptUsedUp(writeTurns, uart.writeTurns, false);
        }
      }
      return None;
    }
    received := Some(buffer[..assembler.packetSize]);
  }

  /** The packet the host's client sends for a message is what the device hands to its caller. */
  lemma MessageArrives(c: Session.DeviceContext, payload: bytes)
    requires c.isOpened && c.hasSessionId && |c.sessionId| == Session.SESSION_ID_SIZE
    requires Session.SESSION_HEADER_SIZE + |payload| <= CAPACITY
    ensures var p: Session.Packet := Session.PacketOf(Session.Message, payload, 0, Some(c.sessionId));
      && Session.Encode(p).Ok? && |Session.Encode(p).value| == Session.SESSION_HEADER_SIZE + |payload|
      && Session.ParsePacketView(c, Session.Encode(p).value, true) == Ok(Session.PacketView(0x01, 0, payload, false))
  {
    hide Session.ParsePacketView;
    var p: Session.Packet := Session.PacketOf(Session.Message, payload, 0, Some(c.sessionId));
    Session.DeviceMatchesId(c, p);
  }

  /** That packet. */
  function HostPacket(c: Session.DeviceContext, payload: bytes): (packet: bytes)
    requires c.isOpened && c.hasSessionId && |c.sessionId| == Session.SESSION_ID_SIZE
    requires Session.SESSION_HEADER_SIZE + |payload| <= CAPACITY
    ensures |packet| == Session.SESSION_HEADER_SIZE + |payload|
  {
    Session.Encode(Session.PacketOf(Session.Message, payload, 0, Some(c.sessionId))).value
  }

  /** A message from the host, every byte of the way: the client's `send_message`, the host's fragments,
      their wire forms on a line with noise in front of each, the device's UART with whatever it does, its
      receive loop over its one frame buffer, and its session check. What arrives is the payload; and it
      does if every turn of the UART moves something and there are turns enough. */
  method HostToDevice(client: Session.FactorySessionClient, c: Session.DeviceContext, payload: bytes, noise: seq<bytes>,
                      readTurns: seq<Turn>, writeTurns: seq<Turn>)
    returns (delivered: Option<bytes>)
    requires c.isOpened && c.hasSessionId && |c.sessionId| == Session.SESSION_ID_SIZE
    requires client.Valid() && client.isOpened && client.sessionId == Some(c.sessionId)
    requires Session.SESSION_HEADER_SIZE + |payload| <= CAPACITY
    requires |noise| == FrameCount(Session.SESSION_HEADER_SIZE + |payload|)
    requires forall i :: 0 <= i < |noise| ==> Quiet(noise[i])
    modifies client, client.port
    ensures delivered.Some? ==> delivered.value == payload
    ensures
      (&& Prompt(readTurns) && |readTurns| >= |Wire(Segments(Plan(HostPacket(c, payload)), noise))|
       && Prompt(writeTurns) && |writeTurns| > REPLY_SIZE * |noise|) ==>
      delivered.Some?
  {
    hide FrameCount, Plan, Wire, Encode, Prompt, Quiet, Session.Encode, Session.ParsePacketView;
    MessageArrives(c, payload);
    client.port.outcomes := [None];
    var sent := client.SendMessage(payload);
    var packet := client.port.outbound[|client.port.outbound| - 1];
    var frames, complete := DrainHost(packet);
    assert frames == Plan(packet);
    var raw := seq(|frames|, i requires 0 <= i < |frames| => Encode(frames[i]));
    var wire := OnTheLine(frames, noise, raw);
    var received := DeviceReceives(wire, packet, noise, readTurns, writeTurns);
    if received.None? {
      return None;
    }
    delivered := Some(Session.ParsePacketView(c, received.value, true).value.payload);
  }

  const REPLY_SIZE: nat := HEADER_SIZE + 1

  lemma StillTurns(turns: seq<Turn>, left: seq<Turn>, n: nat)
    requires DeviceLink.Spent(turns, left, n) && Prompt(turns) && |turns| > n
    ensures left != []
  {
  }

  lemma {:induction false} RepliesAreShort(d: DeviceAssembly, raws: seq<bytes>, wrote: seq<bytes>)
    requires DeviceLink.AllWhole(raws) && DeviceLink.Answered(d, raws, wrote)
    ensures |Flatten(wrote)| <= REPLY_SIZE * |raws|
    decreases |raws|
  {
    hide WholeFrame, DeviceReactions.ReactAll, DeviceReactions.React, DeviceLink.ReplyBytes, Encode;
    if raws != [] {
      var n := |raws| - 1;
      assert forall i :: 0 <= i < n ==> raws[..n][..i] == raws[..i];
      RepliesAreShort(d, raws[..n], wrote[..n]);
      ShortReply(DeviceReactions.ReactAll(d, raws[..n]).value.1, raws[n]);
      assert wrote == wrote[..n] + [wrote[n]];
      FlattenAppend(wrote[..n], [wrote[n]]);
      assert Flatten([wrote[n]]) == wrote[n];
    }
  }

  lemma ShortReply(d: DeviceAssembly, raw: bytes)
    requires WholeFrame(raw)
    ensures |DeviceLink.ReplyBytes(DeviceReactions.React(d, raw).reply)| <= REPLY_SIZE
  {
    hide WholeFrame, DeviceAccept;
  }

  /** What a receive on the line can come to. */
  lemma {:induction false} ReceivedOnLine(
      packet: bytes, noise: seq<bytes>, raws: seq<bytes>, heard: seq<DeviceUart.Heard>, left: bytes,
      code: int, final: DeviceAssembly, readsFail: bool, writesFail: bool)
    requires 1 <= |packet| <= CAPACITY && |noise| == FrameCount(|packet|) && DeviceLink.AllWhole(EncodedPlan(packet))
    requires forall i :: 0 <= i < |noise| ==> Quiet(noise[i])
    requires DeviceLink.AllWhole(raws) && DeviceLink.AllHeard(heard) && DeviceLink.Loaded(None, heard, raws)
    requires DeviceLink.OnlyLastFails(heard, code)
    requires Wire(Segments(Plan(packet), noise)) == DeviceLink.Consumed(heard) + left
    requires DeviceLink.Ended(DeviceFresh(CAPACITY), raws, heard, code, final, readsFail, writesFail)
    ensures |raws| <= FrameCount(|packet|)
    ensures code == 0 ==> final.finished && final.buffer == packet
    ensures code != 0 ==> code == -4 || (code == -7 && writesFail)
    ensures code == -4 ==> heard != [] && !TooLarge(heard[|heard| - 1].part) && left != [] && readsFail
  {
    hide Plan, FrameCount, Wire, Encode, Quiet, WholeFrame, WellHeard, TooLarge, Matches;
    hide DeviceLink.Parts, DeviceLink.Consumed, DeviceReactions.React, DeviceReactions.ReactAll;
    hide Link.ReactAll, Link.React;
    var segments := Segments(Plan(packet), noise);
    RawsOnLine(packet, noise, raws, heard, left, code);
    var n := |raws|;
    PlanReactsOnDevice(packet, n);
    PlanReacts(packet, n);
    if code == 0 {
      SameEnd(Link.ReactAll(Fresh(CAPACITY), Plan(packet)[..n]).value.1, final);
    } else if code == -4 {
      SameEnd(Link.ReactAll(Fresh(CAPACITY), Plan(packet)[..n]).value.1,
              DeviceReactions.ReactAll(DeviceFresh(CAPACITY), raws).value.1);
    } else {
      PlanReactsOnDevice(packet, n - 1);
      assert raws[..n - 1] == EncodedPlan(packet)[..n - 1];
    }
  }

  lemma SameEnd(s: Assembly, d: DeviceAssembly)
    requires Matches(s, d)
    ensures s.finished == d.finished && s.buffer == d.buffer
  {
  }

  /** The frames loaded from such a line are the first frames of the plan; and a read that failed, while there
      are frames left, had neither a bad header nor the end of the line. */
  lemma {:induction false} RawsOnLine(
      packet: bytes, noise: seq<bytes>, raws: seq<bytes>, heard: seq<DeviceUart.Heard>, left: bytes, code: int)
    requires 1 <= |packet| <= CAPACITY && |noise| == FrameCount(|packet|)
    requires forall i :: 0 <= i < |noise| ==> Quiet(noise[i])
    requires DeviceLink.AllHeard(heard) && DeviceLink.Loaded(None, heard, raws) && DeviceLink.OnlyLastFails(heard, code)
    requires Wire(Segments(Plan(packet), noise)) == DeviceLink.Consumed(heard) + left
    ensures |raws| <= FrameCount(|packet|) && raws == EncodedPlan(packet)[..|raws|]
    ensures code == -4 && |raws| < FrameCount(|packet|) ==> !TooLarge(heard[|heard| - 1].part) && left != []
  {
    hide Plan, FrameCount, Wire, Encode, Quiet, WholeFrame, WellHeard, TooLarge;
    var segments := Segments(Plan(packet), noise);
    assert [] + DeviceLink.Parts(heard) == DeviceLink.Parts(heard);
    if code != -4 {
      LineHeard(segments, heard, left);
    } else {
      var n := |heard| - 1;
      var last := heard[n];
      assert DeviceLink.Consumed(heard[..n]) + (last.noise + last.part + left) == DeviceLink.Consumed(heard) + left;
      LineHeard(segments, heard[..n], last.noise + last.part + left);
      assert DeviceLink.Parts(heard) == DeviceLink.Parts(heard[..n]) + [];
      EmptyWire(segments);
      if n < |segments| {
        NextSegment(segments, n, last, left);
      }
    }
  }
}
