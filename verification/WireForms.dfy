/** The wire forms byte by byte, in plain numbers (pc/src/frame/protocol.py, pc/src/frame/frame.py,
    pc/src/session/packet.py). */
module WireForms {
  import opened Bytes
  import opened Frames
  import Crc
  import CrcValues
  import Session

  /** A frame: FA C0, the type, the size and the payload's CRC with the high byte first, the payload. */
  lemma FrameLayout(f: Frame)
    ensures var raw, crc := Encode(f), Crc.Crc16(f.payload);
      && |raw| == 7 + |f.payload| <= 512 && raw[0] == 0xFA && raw[1] == 0xC0
      && raw[2] == (match f.kind case Single => 0x01 case First => 0x02 case Consecutive => 0x03
                                 case Ack => 0xF1 case Nack => 0xF2)
      && raw[3] == |f.payload| / 256 && raw[4] == |f.payload| % 256
      && raw[5] == crc / 256 && raw[6] == crc % 256 && raw[7..] == f.payload
  {
    hide Crc.Crc16;
    var raw := Encode(f);
    assert raw[..7] == Header(KindCode(f.kind), f.payload);
    assert forall i :: 0 <= i < 7 ==> raw[i] == raw[..7][i];
  }

  /** For instance the acknowledgement of number 0. */
  lemma AckOnTheWire()
    ensures Encode(AckFor(0)) == [0xFA, 0xC0, 0xF1, 0x00, 0x01, 0xE1, 0xF0, 0x00]
  {
    hide Crc.Crc16;
    CrcValues.CheckValues();
    FrameLayout(AckFor(0));
    var raw := Encode(AckFor(0));
    assert raw == raw[..7] + raw[7..] && raw[7..] == [0x00];
    assert raw[..7] == [raw[0], raw[1], raw[2], raw[3], raw[4], raw[5], raw[6]];
  }

  /** The payloads of FIRST and CONSECUTIVE frames, and what cannot be built. */
  lemma Numbers(total: u32, sequence: byte, chunk: bytes)
    requires |chunk| <= 500
    ensures BuildFirst(total, 0, chunk).Ok? && BuildConsecutive(sequence, chunk).Ok?
    ensures BuildFirst(total, 0, chunk).value ==
      FrameOf(First, [total / 0x100_0000, total / 0x1_0000 % 256, total / 0x100 % 256, total % 256, 0] + chunk)
    ensures BuildConsecutive(sequence, chunk).value == FrameOf(Consecutive, [sequence] + chunk)
    ensures forall q: int :: q != 0 ==> BuildFirst(total, q, chunk) == Err(ArgumentError)
    ensures forall q: int :: q < 0 || q > 255 ==> BuildConsecutive(q, chunk) == Err(ArgumentError)
  {
    var size: bytes := [total / 0x100_0000, total / 0x1_0000 % 256, total / 0x100 % 256, total % 256];
    assert size + [0] + chunk == [size[0], size[1], size[2], size[3], 0] + chunk;
  }

  /** A session packet: version, type, flag, the session id if the type has one, the size in four bytes with the
      highest first, the payload. */
  lemma PacketLayout(p: Session.Packet)
    requires |p.payload| <= 0xFFFF_FFFF
    ensures Session.Encode(p).Ok?
    ensures var raw, n := Session.Encode(p).value, |p.payload|;
      && |raw| == (if Session.IsSessionless(p.ptype) then 7 else 23) + n
      && raw[0] == 0x01 && raw[2] == p.flag
      && raw[1] == (match p.ptype case Message => 0x01 case PcHello => 0x10 case PcBye => 0x11 case PcAlert => 0x12
                                  case DeviceHello => 0x20 case DeviceBye => 0x21 case DeviceAlert => 0x22
                                  case DeviceChallenge => 0x23)
      && (p.sessionId.Some? ==> raw[3..19] == p.sessionId.value)
      && raw[|raw| - n..] == p.payload
      && raw[|raw| - n - 4..|raw| - n] == [n / 0x100_0000, n / 0x1_0000 % 256, n / 0x100 % 256, n % 256]
  {
    var raw, n := Session.Encode(p).value, |p.payload|;
    var id, size := Session.IdBytes(p), U32Be(n);
    assert raw == [0x01, Session.TypeCode(p.ptype), p.flag] + id + size + p.payload;
    assert raw[3..3 + |id|] == id && raw[3 + |id|..7 + |id|] == size;
  }
}
