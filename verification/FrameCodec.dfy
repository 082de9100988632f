/** protocol/codec.py: frames with a 12-byte header, a body and a check code between two flags. */
module FrameCodec {
  import opened Bytes
  import opened Stuffing
  import opened Checksum
  import Bcd
  import Bits

  datatype Frame = Frame(
    msgId: Word, phone: string, serialNo: Word, body: Bytes,
    subPacket: bool, totalPackets: Word, packetNo: Word)

  function BodyLength(props: nat): nat { props % 1024 }

  function SubPacketBit(props: nat): nat { props / 8192 % 2 }

  /** The two fields are the source's `props & 0x03FF` and `(props >> 13) & 1`. */
  lemma PropsAreBitFields(props: nat)
    ensures BodyLength(props) == Bits.And(props, 0x03FF)
    ensures SubPacketBit(props) == Bits.And(Bits.Shr(props, 13), 1)
  {
    Bits.Masks(props);
    Bits.Masks(props / 8192);
  }

  function Header(msgId: Word, props: Word, phoneField: Bytes, serialNo: Word): (h: Bytes)
    requires |phoneField| == 6
    ensures |h| == 12
  {
    PackWord(msgId) + PackWord(props) + phoneField + PackWord(serialNo)
  }

  /** None stands for a frame that is too short, fails the check, or is shorter than it declares. */
  function ParseFrame(raw: Bytes): Option<Frame> {
    if |raw| < 13 || !Checks(raw) then None
    else
      var props := WordAt(raw, 2);
      var bodyLen := BodyLength(props);
      var sub := SubPacketBit(props) == 1;
      if sub && |raw| < 17 then None
      else
        var offset := if sub then 16 else 12;
        var body := Slice(raw, offset, offset + bodyLen);
        if |body| < bodyLen then None
        else Some(Frame(WordAt(raw, 0), Bcd.Decode(raw[4..10], false), WordAt(raw, 10), body,
                        sub,
                        if sub then WordAt(raw, 12) else 0,
                        if sub then WordAt(raw, 14) else 0))
  }

  /** The header and body of a frame that is not a sub-packet, before the check code. */
  function Payload(msgId: Word, body: Bytes, phone: string, serialNo: Word): (p: Bytes)
    requires Bcd.AllHex(phone)
    ensures |p| == 12 + |body|
  {
    Header(msgId, BodyLength(|body|), Bcd.EncodePhone(phone), serialNo) + body
  }

  /** What stands between the two flags of a frame on the wire. */
  function Segment(msgId: Word, body: Bytes, phone: string, serialNo: Word): Bytes
    requires Bcd.AllHex(phone)
  {
    Escape(Seal(Payload(msgId, body, phone, serialNo)))
  }

  function BuildFrame(msgId: Word, body: Bytes, phone: string, serialNo: Word): Bytes
    requires Bcd.AllHex(phone)
  {
    [FLAG] + Segment(msgId, body, phone, serialNo) + [FLAG]
  }

  /** Where the four header fields lie, whatever follows them. */
  lemma HeaderFields(msgId: Word, props: Word, phoneField: Bytes, serialNo: Word, rest: Bytes)
    requires |phoneField| == 6
    ensures var raw := Header(msgId, props, phoneField, serialNo) + rest;
            && WordAt(raw, 0) == msgId && WordAt(raw, 2) == props
            && raw[4..10] == phoneField && WordAt(raw, 10) == serialNo
            && raw[12..] == rest
  {
    var raw := Header(msgId, props, phoneField, serialNo) + rest;
    assert raw[0..2] == PackWord(msgId) && raw[2..4] == PackWord(props);
    assert raw[4..10] == phoneField && raw[10..12] == PackWord(serialNo);
    assert raw[0] == raw[0..2][0] && raw[1] == raw[0..2][1];
    assert raw[2] == raw[2..4][0] && raw[3] == raw[2..4][1];
    assert raw[10] == raw[10..12][0] && raw[11] == raw[10..12][1];
  }

  /** The frame that a receiver should reconstruct from the arguments of BuildFrame. */
  function Received(msgId: Word, body: Bytes, phone: string, serialNo: Word): Frame
    requires Bcd.AllHex(phone)
  {
    Frame(msgId, Bcd.Recase(Bcd.ZFill(phone, 12), false), serialNo, body, false, 0, 0)
  }

  lemma ParseHeader(msgId: Word, props: Word, phoneField: Bytes, serialNo: Word, rest: Bytes)
    requires |phoneField| == 6 && props < 1024 && 1 <= |rest| && props <= |rest|
    requires Checks(Header(msgId, props, phoneField, serialNo) + rest)
    ensures ParseFrame(Header(msgId, props, phoneField, serialNo) + rest)
         == Some(Frame(msgId, Bcd.Decode(phoneField, false), serialNo, rest[..props], false, 0, 0))
  {
    hide WordAt, Bcd.Decode, Header, Checks;
    var raw := Header(msgId, props, phoneField, serialNo) + rest;
    HeaderFields(msgId, props, phoneField, serialNo, rest);
    assert raw[12..12 + props] == raw[12..][..props];
  }

  lemma ParseSealed(msgId: Word, body: Bytes, phone: string, serialNo: Word)
    requires Bcd.AllHex(phone) && |phone| <= 12
    ensures ParseFrame(Seal(Payload(msgId, body, phone, serialNo)))
         == Some(Received(msgId, body[..|body| % 1024], phone, serialNo))
  {
    var payload := Payload(msgId, body, phone, serialNo);
    var props, field, rest := BodyLength(|body|), Bcd.EncodePhone(phone), body + [Fold(payload)];
    SealChecks(payload);
    assert Seal(payload) == Header(msgId, props, field, serialNo) + rest;
    ParseHeader(msgId, props, field, serialNo, rest);
    Bcd.PhoneRoundTrip(phone, false);
    assert rest[..props] == body[..props];
  }

  /** The length field holds ten bits: of a longer body only the first len mod 1024 bytes arrive. */
  lemma ParseBuilt(msgId: Word, body: Bytes, phone: string, serialNo: Word)
    requires Bcd.AllHex(phone) && |phone| <= 12
    ensures ParseFrame(Unescape(Segment(msgId, body, phone, serialNo)))
         == Some(Received(msgId, body[..|body| % 1024], phone, serialNo))
    ensures FLAG !in Segment(msgId, body, phone, serialNo)
    ensures Segment(msgId, body, phone, serialNo) != []
  {
    StuffingRoundTrip(Seal(Payload(msgId, body, phone, serialNo)));
    ParseSealed(msgId, body, phone, serialNo);
  }

  /** A built frame is recovered whole exactly when its body fits the length field. */
  lemma BodyFits(msgId: Word, body: Bytes, phone: string, serialNo: Word)
    requires Bcd.AllHex(phone) && |phone| <= 12
    ensures ParseFrame(Unescape(Segment(msgId, body, phone, serialNo)))
         == Some(Received(msgId, body, phone, serialNo))
       <==> |body| < 1024
  {
    hide ParseFrame, Unescape, Segment;
    ParseBuilt(msgId, body, phone, serialNo);
    if |body| < 1024 {
      assert body[..|body|] == body;
    } else {
      assert |body[..|body| % 1024]| < |body|;
    }
  }
}
