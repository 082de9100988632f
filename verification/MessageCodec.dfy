/** jt808/protocol.py: the second implementation of the same wire format. */
module MessageCodec {
  import opened Bytes
  import opened Stuffing
  import opened Checksum
  import Bcd
  import Bits
  import FrameCodec

  datatype Header = Header(
    msgId: Word, phone: string, serialNo: Word, bodyLength: nat,
    encryptType: nat, subpackage: bool, totalPackets: Word, packetNo: Word)

  datatype Message = Message(header: Header, body: Bytes, raw: Bytes)

  /** Raised stands for the struct.error of a header that ends early. */
  datatype Parse = Parsed(msg: Message) | Rejected | Raised

  /** The property word: ten bits of length, three of encryption, one sub-packet bit. */
  function Props(bodyLen: nat, encryptType: nat, subpackage: bool): Word {
    bodyLen % 1024 + encryptType % 8 * 1024 + (if subpackage then 8192 else 0)
  }

  function EncryptType(props: nat): nat { props / 1024 % 8 }

  predicate IsSubpackage(props: nat) { props / 8192 % 2 == 1 }

  /** Packing is the source's masking, shifting and `|=`. */
  lemma PropsArePacked(bodyLen: nat, encryptType: nat)
    ensures var packed := Bits.Or(Bits.And(bodyLen, 0x03FF), Bits.Shl(Bits.And(encryptType, 0x07), 10));
            && Props(bodyLen, encryptType, false) == packed
            && Props(bodyLen, encryptType, true) == Bits.Or(packed, Bits.Shl(1, 13))
  {
    Bits.Masks(bodyLen);
    Bits.Masks(encryptType);
    Bits.Masks(encryptType % 8);
    Bits.Masks(1);
    assert Bits.Pow2(10) == 1024 && Bits.Pow2(13) == 8192;
    Bits.OrDisjoint(bodyLen % 1024, encryptType % 8, 10);
    Bits.OrDisjoint(Props(bodyLen, encryptType, false), 1, 13);
  }

  lemma BitOf(props: nat)
    ensures Bits.Shl(1, 13) == 8192 && (Bits.And(props, 8192) != 0 <==> props / 8192 % 2 == 1)
  {
    assert Bits.Pow2(13) == 8192;
    Bits.Masks(1);
    Bits.AndSingleBit(props, 13);
  }

  /** Unpacking is the source's `(props >> 10) & 0x07` and `bool(props & (1 << 13))`. */
  lemma PropsAreUnpacked(props: nat)
    ensures EncryptType(props) == Bits.And(Bits.Shr(props, 10), 0x07)
    ensures IsSubpackage(props) <==> Bits.And(props, Bits.Shl(1, 13)) != 0
  {
    hide Bits.And, Bits.Shr, Bits.Shl;
    Bits.Masks(props);
    Bits.Masks(props / 1024);
    BitOf(props);
  }

  function EncodeHeader(h: Header, bodyLen: nat): (b: Bytes)
    requires Bcd.AllHex(h.phone)
    ensures |h.phone| <= 12 ==> |b| == if h.subpackage then 16 else 12
  {
    var base := PackWord(h.msgId) + PackWord(Props(bodyLen, h.encryptType, h.subpackage))
                + Bcd.Encode(h.phone, 6) + PackWord(h.serialNo);
    if h.subpackage then base + (PackWord(h.totalPackets) + PackWord(h.packetNo)) else base
  }

  /** The header and the offset after it, or None where `struct.unpack_from` raises. */
  function DecodeHeader(data: Bytes): (r: Option<(Header, nat)>)
    ensures r.Some? ==> r.value.1 == (if r.value.0.subpackage then 16 else 12) <= |data|
  {
    if |data| < 12 then None
    else
      var props := WordAt(data, 2);
      var sub := IsSubpackage(props);
      if sub && |data| < 16 then None
      else
        var header := Header(
          WordAt(data, 0), Bcd.Decode(data[4..10], true), WordAt(data, 10),
          FrameCodec.BodyLength(props), EncryptType(props), sub,
          if sub then WordAt(data, 12) else 0,
          if sub then WordAt(data, 14) else 0);
        Some((header, if sub then 16 else 12))
  }

  function FrameUp(inner: Bytes): Bytes {
    [FLAG] + Escape(Seal(inner)) + [FLAG]
  }

  function BuildMessage(msgId: Word, phone: string, serialNo: Word, body: Bytes): Bytes
    requires Bcd.AllHex(phone)
  {
    FrameUp(EncodeHeader(Header(msgId, phone, serialNo, 0, 0, false, 0, 0), |body|) + body)
  }

  function ParseMessage(payload: Bytes): Parse {
    if |payload| < 13 || !Checks(payload) then Rejected
    else
      match DecodeHeader(payload)
      case None => Raised
      case Some((header, offset)) =>
        Parsed(Message(header, Slice(payload, offset, |payload| - 1), payload))
  }

  /** The bytes of a header: identifier, properties, phone, serial and packet fields, most significant byte first. */
  lemma HeaderLayout(h: Header, bodyLen: nat)
    requires Bcd.AllHex(h.phone) && |h.phone| <= 12
    ensures var props, b := Props(bodyLen, h.encryptType, h.subpackage), EncodeHeader(h, bodyLen);
            && b[..4] == [h.msgId / 256, h.msgId % 256, props / 256, props % 256]
            && b[4..10] == Bcd.EncodePhone(h.phone)
            && b[10..12] == [h.serialNo / 256, h.serialNo % 256]
            && b[12..] == if !h.subpackage then []
                          else [h.totalPackets / 256, h.totalPackets % 256, h.packetNo / 256, h.packetNo % 256]
  {
    hide Props, Bcd.EncodePhone, PackWord, EncodeHeader, PacketFields;
    var props, field := Props(bodyLen, h.encryptType, h.subpackage), Bcd.EncodePhone(h.phone);
    EncodedParts(h, bodyLen);
    HeaderParts(PackWord(h.msgId), PackWord(props), field, PackWord(h.serialNo), PacketFields(h));
    TwoWords(h.msgId, props);
    TwoWords(h.totalPackets, h.packetNo);
    TwoWords(h.serialNo, 0);
    PacketBytes(h);
  }

  function PacketFields(h: Header): Bytes {
    if h.subpackage then PackWord(h.totalPackets) + PackWord(h.packetNo) else []
  }

  lemma PacketBytes(h: Header)
    ensures PacketFields(h) == if h.subpackage then PackWord(h.totalPackets) + PackWord(h.packetNo) else []
  {
  }

  lemma EncodedParts(h: Header, bodyLen: nat)
    requires Bcd.AllHex(h.phone) && |h.phone| <= 12
    ensures EncodeHeader(h, bodyLen)
         == PackWord(h.msgId) + PackWord(Props(bodyLen, h.encryptType, h.subpackage)) + Bcd.EncodePhone(h.phone)
            + PackWord(h.serialNo) + PacketFields(h)
  {
    hide Props, Bcd.Encode, Bcd.EncodePhone, PackWord;
    Bcd.PhoneRoundTrip(h.phone, true);
  }

  lemma HeaderParts(a: Bytes, b: Bytes, field: Bytes, c: Bytes, tail: Bytes)
    requires |a| == |b| == |c| == 2 && |field| == 6
    ensures var whole := a + b + field + c + tail;
            whole[..4] == a + b && whole[4..10] == field && whole[10..12] == c && whole[12..] == tail
  {
  }

  lemma TwoWords(v: Word, w: Word)
    ensures PackWord(v) == [v / 256, v % 256]
    ensures PackWord(v) + PackWord(w) == [v / 256, v % 256, w / 256, w % 256]
  {
  }

  /** What decoding makes of a header that was encoded for a body of the given length. */
  function Normalised(h: Header, bodyLen: nat): Header
    requires Bcd.AllHex(h.phone)
  {
    h.(phone := Bcd.Recase(Bcd.ZFill(h.phone, 12), true),
       bodyLength := bodyLen % 1024,
       encryptType := h.encryptType % 8,
       totalPackets := if h.subpackage then h.totalPackets else 0,
       packetNo := if h.subpackage then h.packetNo else 0)
  }

  lemma PropsFields(bodyLen: nat, encryptType: nat, sub: bool)
    ensures var props := Props(bodyLen, encryptType, sub);
            && FrameCodec.BodyLength(props) == bodyLen % 1024
            && EncryptType(props) == encryptType % 8
            && (IsSubpackage(props) <==> sub)
  {
  }

  lemma HeaderRoundTrip(h: Header, bodyLen: nat, rest: Bytes)
    requires Bcd.AllHex(h.phone) && |h.phone| <= 12
    ensures DecodeHeader(EncodeHeader(h, bodyLen) + rest)
         == Some((Normalised(h, bodyLen), if h.subpackage then 16 else 12))
  {
    hide Props, FrameCodec.BodyLength, EncryptType, IsSubpackage;
    var props := Props(bodyLen, h.encryptType, h.subpackage);
    PropsFields(bodyLen, h.encryptType, h.subpackage);
    Bcd.PhoneRoundTrip(h.phone, true);
    var field := Bcd.EncodePhone(h.phone);
    var base := FrameCodec.Header(h.msgId, props, field, h.serialNo);
    var tail := if h.subpackage then PackWord(h.totalPackets) + PackWord(h.packetNo) else [];
    var data := EncodeHeader(h, bodyLen) + rest;
    assert data == base + (tail + rest);
    FrameCodec.HeaderFields(h.msgId, props, field, h.serialNo, tail + rest);
    if h.subpackage {
      assert data[12..] == tail + rest;
      assert data[12] == tail[0] && data[13] == tail[1] && data[14] == tail[2] && data[15] == tail[3];
    }
  }

  /** A header comes back unchanged exactly when its fields fit and it carries its own normal form. */
  lemma HeaderExact(h: Header, rest: Bytes)
    requires Bcd.AllHex(h.phone) && |h.phone| <= 12
    ensures DecodeHeader(EncodeHeader(h, h.bodyLength) + rest)
         == Some((h, if h.subpackage then 16 else 12))
       <==> && h.bodyLength < 1024 && h.encryptType < 8
            && h.phone == Bcd.Recase(Bcd.ZFill(h.phone, 12), true)
            && (!h.subpackage ==> h.totalPackets == 0 && h.packetNo == 0)
  {
    hide DecodeHeader, EncodeHeader, Normalised;
    HeaderRoundTrip(h, h.bodyLength, rest);
    NormalExact(h);
  }

  lemma NormalExact(h: Header)
    requires Bcd.AllHex(h.phone)
    ensures Normalised(h, h.bodyLength) == h
       <==> && h.bodyLength < 1024 && h.encryptType < 8
            && h.phone == Bcd.Recase(Bcd.ZFill(h.phone, 12), true)
            && (!h.subpackage ==> h.totalPackets == 0 && h.packetNo == 0)
  {
    hide Bcd.Recase, Bcd.ZFill;
  }

  /** Bodies of any size are recovered whole, since the length field is not consulted. */
  lemma MessageRoundTrip(h: Header, body: Bytes)
    requires Bcd.AllHex(h.phone) && |h.phone| <= 12
    ensures var inner := EncodeHeader(h, |body|) + body;
            && FLAG !in Escape(Seal(inner))
            && Unescape(Escape(Seal(inner))) == Seal(inner)
            && ParseMessage(Seal(inner)) == Parsed(Message(Normalised(h, |body|), body, Seal(inner)))
  {
    var inner := EncodeHeader(h, |body|) + body;
    var raw := Seal(inner);
    StuffingRoundTrip(raw);
    SealChecks(inner);
    assert raw == EncodeHeader(h, |body|) + (body + [Fold(inner)]);
    HeaderRoundTrip(h, |body|, body + [Fold(inner)]);
    var offset := if h.subpackage then 16 else 12;
    assert raw[offset..|raw| - 1] == body;
  }

  /** Both builders write the same bytes. */
  lemma BuildersAgree(msgId: Word, phone: string, serialNo: Word, body: Bytes)
    requires Bcd.AllHex(phone) && |phone| <= 12
    ensures BuildMessage(msgId, phone, serialNo, body) == FrameCodec.BuildFrame(msgId, body, phone, serialNo)
  {
    hide Escape, Seal, Bcd.Encode, Bcd.EncodePhone;
    Bcd.PhoneRoundTrip(phone, true);
  }

  /** Same message, as far as both representations can tell: phones are compared as bytes. */
  predicate SameHeader(f: FrameCodec.Frame, h: Header)
    requires Bcd.AllHex(f.phone) && Bcd.AllHex(h.phone)
  {
    && f.msgId == h.msgId && f.serialNo == h.serialNo
    && f.subPacket == h.subpackage && f.totalPackets == h.totalPackets && f.packetNo == h.packetNo
    && Bcd.EncodePhone(f.phone) == Bcd.EncodePhone(h.phone)
  }

  /** The payload holds what its header declares, where the check code may be counted in. */
  predicate DeclaredBodyPresent(h: Header, raw: Bytes) {
    && (if h.subpackage then 16 else 12) + h.bodyLength <= |raw|
    && (h.subpackage ==> |raw| >= 17)
  }

  /** The first parser accepts exactly what the second parses and whose declared body is present. */
  lemma FirstParserAccepts(raw: Bytes)
    ensures FrameCodec.ParseFrame(raw).Some? <==>
            ParseMessage(raw).Parsed? && DeclaredBodyPresent(ParseMessage(raw).msg.header, raw)
  {
  }

  /**
   On what both accept the parsers agree: the first body is a prefix of the second body
   followed by the check code, and the bodies are equal exactly when the declared length is.
   */
  lemma ParsersAgree(raw: Bytes)
    requires FrameCodec.ParseFrame(raw).Some?
    ensures ParseMessage(raw).Parsed?
    ensures var f, m := FrameCodec.ParseFrame(raw).value, ParseMessage(raw).msg;
            && Bcd.AllHex(f.phone) && Bcd.AllHex(m.header.phone) && SameHeader(f, m.header)
            && f.body <= m.body + [raw[|raw| - 1]]
            && |f.body| == m.header.bodyLength
            && (|m.body| == m.header.bodyLength <==> f.body == m.body)
  {
    FirstParserAccepts(raw);
    PhonesAgree(raw);
    var sub := IsSubpackage(WordAt(raw, 2));
    BodiesAgree(raw, if sub then 16 else 12, FrameCodec.BodyLength(WordAt(raw, 2)));
  }

  lemma BodiesAgree(raw: Bytes, offset: nat, bodyLen: nat)
    requires offset < |raw| && offset + bodyLen <= |raw|
    ensures var first, second := Slice(raw, offset, offset + bodyLen), Slice(raw, offset, |raw| - 1);
            && |first| == bodyLen
            && first <= second + [raw[|raw| - 1]]
            && (|second| == bodyLen <==> first == second)
  {
    var second := raw[offset..|raw| - 1];
    assert second + [raw[|raw| - 1]] == raw[offset..];
    assert raw[offset..offset + bodyLen] == raw[offset..][..bodyLen];
  }

  lemma PhonesAgree(raw: Bytes)
    requires |raw| >= 10
    ensures Bcd.EncodePhone(Bcd.Decode(raw[4..10], false)) == Bcd.EncodePhone(Bcd.Decode(raw[4..10], true))
  {
    Bcd.FieldRoundTrip(raw[4..10], true);
    Bcd.FieldRoundTrip(raw[4..10], false);
  }

  /** The second parser raises exactly on accepted check codes over 13 to 15 bytes with the sub-packet bit. */
  lemma ParseRaises(raw: Bytes)
    ensures ParseMessage(raw).Raised? <==>
            13 <= |raw| < 16 && Checks(raw) && WordAt(raw, 2) / 8192 % 2 == 1
  {
  }

  /** One corrupted byte anywhere in an accepted payload makes both parsers reject it. */
  lemma CorruptionRejected(sent: Bytes, received: Bytes, i: nat)
    requires ParseMessage(sent).Parsed? || FrameCodec.ParseFrame(sent).Some?
    requires |received| == |sent| && i < |sent| && received[i] != sent[i]
    requires forall j :: 0 <= j < |sent| && j != i ==> received[j] == sent[j]
    ensures ParseMessage(received) == Rejected && FrameCodec.ParseFrame(received) == None
  {
    SingleByteErrorDetected(sent, received, i);
  }

  /** Every parsed phone is twelve upper-case hexadecimal digits, so it is sent back unchanged. */
  lemma ParsedPhone(raw: Bytes)
    requires ParseMessage(raw).Parsed?
    ensures var phone := ParseMessage(raw).msg.header.phone;
            && |phone| == 12 && Bcd.AllHex(phone) && Bcd.Recase(phone, true) == phone
            && Bcd.EncodePhone(phone) == raw[4..10]
  {
    var field := raw[4..10];
    var phone := Bcd.Decode(field, true);
    Bcd.FieldRoundTrip(field, true);
    Bcd.PhoneRoundTrip(phone, true);
  }
}
