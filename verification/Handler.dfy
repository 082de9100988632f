/** core/handler.py and the frame loop of core/server.py, run by one coroutine without interruption. */
module Handler {
  import opened Bytes
  import opened Stuffing
  import opened FrameCodec
  import opened Connection
  import opened Registry
  import opened Assembly
  import Bcd

  const HEARTBEAT: Word := 0x0002
  const UNREGISTRATION: Word := 0x0003
  const QUERY_TIME: Word := 0x0004
  const GENERAL_RESPONSE: Word := 0x8001
  const TIME_RESPONSE: Word := 0x8004
  const REGISTRATION_RESPONSE: Word := 0x8100

  /** `phone.encode("ascii")` */
  function Ascii(s: string): Bytes
    requires Bcd.AllHex(s)
  {
    seq(|s|, i requires 0 <= i < |s| => s[i] as int)
  }

  datatype Reply = Reply(msgId: Word, body: Bytes)

  /**
   What a frame meets outside: the clock, and whether the writes of the database succeed, the
   second one being the retry after a registration that could not be read or stored.
   */
  datatype World = World(now: Bcd.Now, stored: bool, retried: bool)

  /** `build_server_time_response`: one plain byte for every two digits */
  function TimeBody(t: Bcd.DateTime): (b: Bytes)
    requires Bcd.ValidTime(t)
    ensures |b| == 6
  {
    [t.year % 100, t.month, t.day, t.hour, t.minute, t.second]
  }

  /** The length from which `parse_registration` reads all its fields. */
  predicate RegistrationReads(body: Bytes) { |body| >= 37 }

  /** Which message answers a frame, if any; a database failure that is not caught inside ends the handler first. */
  function ReplyTo(frame: Frame, world: World): Option<Reply>
    requires Bcd.AllHex(frame.phone)
  {
    if frame.msgId == REGISTRATION then
      if (RegistrationReads(frame.body) && world.stored) || world.retried then
        Some(Reply(REGISTRATION_RESPONSE, PackWord(frame.serialNo) + [0] + Ascii(frame.phone)))
      else None
    else if frame.msgId == QUERY_TIME then Some(Reply(TIME_RESPONSE, TimeBody(world.now)))
    else if frame.msgId == AUTHENTICATION && !world.stored then None
    else if frame.msgId == HEARTBEAT || frame.msgId == UNREGISTRATION
            || frame.msgId == AUTHENTICATION || frame.msgId == LOCATION then
      Some(Reply(GENERAL_RESPONSE, PackWord(frame.serialNo) + PackWord(frame.msgId) + [0]))
    else None
  }

  function ArrivalOf(frame: Frame): Arrival { Arrival(frame.msgId, frame.phone) }

  method Handle(conn: TerminalConnection, frame: Frame, world: World) returns (sent: Option<Bytes>)
    requires conn.Valid() && Bcd.AllHex(frame.phone)
    modifies conn`phone, conn`authenticated, conn`serial
    ensures conn.Valid()
    ensures conn.phone == HandlerPhone(old(conn.phone), ArrivalOf(frame))
    ensures conn.authenticated == (old(conn.authenticated) || frame.msgId == 0x0102)
    ensures match ReplyTo(frame, world)
            case None => sent == None && conn.serial == old(conn.serial)
            case Some(reply) =>
              && conn.serial == (old(conn.serial) + 1) % 0x1_0000
              && sent == Some(BuildFrame(reply.msgId, reply.body, PhoneOrZeros(conn.phone), conn.serial))
  {
    hide BuildFrame, Ascii;
    sent := None;
    var body: Bytes;
    if frame.msgId == REGISTRATION {
      conn.phone := Some(frame.phone);
      var done := RegistrationReads(frame.body) && world.stored;
      if !done {
        done := world.retried;
      }
      if !done {
        return;
      }
      body := PackWord(frame.serialNo) + [0] + Ascii(conn.phone.value);
      var raw := conn.SendFrame(REGISTRATION_RESPONSE, body);
      sent := Some(raw);
    } else if frame.msgId == QUERY_TIME {
      var raw := conn.SendFrame(TIME_RESPONSE, TimeBody(world.now));
      sent := Some(raw);
    } else if frame.msgId == AUTHENTICATION {
      conn.phone := Some(frame.phone);
      conn.authenticated := true;
      if !world.stored {
        return;
      }
      body := PackWord(frame.serialNo) + PackWord(AUTHENTICATION) + [0];
      var raw := conn.SendFrame(GENERAL_RESPONSE, body);
      sent := Some(raw);
    } else if frame.msgId == LOCATION {
      if !HasPhone(conn.phone) {
        conn.phone := Some(frame.phone);
      }
      body := PackWord(frame.serialNo) + PackWord(LOCATION) + [0];
      var raw := conn.SendFrame(GENERAL_RESPONSE, body);
      sent := Some(raw);
    } else if frame.msgId == HEARTBEAT || frame.msgId == UNREGISTRATION {
      body := PackWord(frame.serialNo) + PackWord(frame.msgId) + [0];
      var raw := conn.SendFrame(GENERAL_RESPONSE, body);
      sent := Some(raw);
    }
  }

  /** The body of the frame loop of the server. */
  method HandleFrame(registry: ConnectionRegistry, conn: TerminalConnection, frame: Frame, world: World)
    returns (sent: Option<Bytes>)
    requires conn.Valid() && Bcd.AllHex(frame.phone)
    modifies registry, conn`phone, conn`authenticated, conn`serial
    ensures conn.Valid()
    ensures (registry.byPhone, conn.phone) == AfterFrame(old(registry.byPhone), old(conn.phone), conn, ArrivalOf(frame))
    ensures conn.authenticated == (old(conn.authenticated) || frame.msgId == 0x0102)
    ensures match ReplyTo(frame, world)
            case None => sent == None && conn.serial == old(conn.serial)
            case Some(reply) =>
              && conn.serial == (old(conn.serial) + 1) % 0x1_0000
              && sent == Some(BuildFrame(reply.msgId, reply.body, PhoneOrZeros(conn.phone), conn.serial))
  {
    hide BuildFrame, ReplyTo, HandlerPhone, PhoneOrZeros, BufferShape;
    if RealPhone(frame.phone) {
      if !HasPhone(conn.phone) {
        conn.phone := Some(frame.phone);
        registry.Add(conn);
      } else if conn.phone != Some(frame.phone) {
        registry.Remove(conn);
        conn.phone := Some(frame.phone);
      }
    }
    sent := Handle(conn, frame, world);
    if HasPhone(conn.phone) {
      registry.Add(conn);
    }
  }

  /** The final block: the connection's own entry, and no other, is removed. */
  method CloseClient(registry: ConnectionRegistry, conn: TerminalConnection)
    modifies registry
    ensures registry.byPhone == Removed(old(registry.byPhone), conn.phone, conn)
    ensures forall p :: p in old(registry.byPhone) && old(registry.byPhone)[p] != conn ==>
              p in registry.byPhone && registry.byPhone[p] == old(registry.byPhone)[p]
  {
    registry.Remove(conn);
  }

  /** The bytes of every reply. */
  lemma ReplyBytes(frame: Frame, world: World)
    requires Bcd.AllHex(frame.phone)
    ensures var id, serial := frame.msgId, frame.serialNo;
            ReplyTo(frame, world)
            == if id == 0x0004 then Some(Reply(0x8004, TimeBody(world.now)))
               else if id == 0x0100 then
                 if (|frame.body| >= 37 && world.stored) || world.retried
                 then Some(Reply(0x8100, [serial / 256, serial % 256, 0] + Ascii(frame.phone))) else None
               else if id == 0x0002 || id == 0x0003 || id == 0x0200 || (id == 0x0102 && world.stored) then
                 Some(Reply(0x8001, [serial / 256, serial % 256, id / 256, id % 256, 0]))
               else None
    ensures |Ascii(frame.phone)| == |frame.phone|
    ensures forall i :: 0 <= i < |frame.phone| ==> Ascii(frame.phone)[i] == frame.phone[i] as int
  {
    hide TimeBody;
    var id, serial := frame.msgId, frame.serialNo;
    assert PackWord(serial) + PackWord(id) + [0] == [serial / 256, serial % 256, id / 256, id % 256, 0];
    assert PackWord(serial) + [0] == [serial / 256, serial % 256, 0];
  }

  /** The phone that the terminal reads in a frame of this connection: its own, or twelve zeros while it has none. */
  lemma PhoneSent(phone: Option<string>)
    requires phone.Some? ==> Bcd.AllHex(phone.value) && |phone.value| <= 12
    ensures Bcd.AllHex(PhoneOrZeros(phone))
    ensures var read := Bcd.Recase(Bcd.ZFill(PhoneOrZeros(phone), 12), false);
            && (phone == None || phone == Some("") ==> read == "000000000000")
            && (phone.Some? && phone.value != "" ==> read == Bcd.Recase(Bcd.ZFill(phone.value, 12), false))
            && (phone.Some? && |phone.value| == 12 && Bcd.AllDigits(phone.value) ==> read == phone.value)
  {
    Bcd.RecaseDigits("000000000000", false);
    if phone.Some? && |phone.value| == 12 && Bcd.AllDigits(phone.value) {
      Bcd.RecaseDigits(phone.value, false);
    }
  }

  /** A reply reaches the terminal as the intended message, under the connection's phone. */
  lemma ReplyArrives(frame: Frame, world: World, phone: Option<string>, serial: Word)
    requires Bcd.AllHex(frame.phone) && |frame.phone| == 12
    requires phone.Some? ==> Bcd.AllHex(phone.value) && |phone.value| <= 12
    ensures match ReplyTo(frame, world)
            case None => true
            case Some(reply) =>
              var read := ParseFrame(Unescape(Segment(reply.msgId, reply.body, PhoneOrZeros(phone), serial)));
              && read.Some?
              && read.value.msgId == reply.msgId && read.value.body == reply.body && read.value.serialNo == serial
              && (phone == None || phone == Some("") ==> read.value.phone == "000000000000")
              && (phone.Some? && phone.value != "" ==>
                    read.value.phone == Bcd.Recase(Bcd.ZFill(phone.value, 12), false))
              && (phone.Some? && |phone.value| == 12 && Bcd.AllDigits(phone.value) ==> read.value.phone == phone.value)
              && (frame.msgId != 0x0004 ==> WordAt(reply.body, 0) == frame.serialNo)
  {
    hide Segment, ParseFrame, Unescape, PhoneOrZeros, Bcd.Recase, Bcd.ZFill, TimeBody;
    PhoneSent(phone);
    match ReplyTo(frame, world)
    case None =>
    case Some(reply) =>
      BodyFits(reply.msgId, reply.body, PhoneOrZeros(phone), serial);
  }

  lemma PlainByteExact(n: nat)
    requires n < 100
    ensures Bcd.Packed(n) == n <==> n < 10
  {
  }

  /**
   The time answer is read as BCD by its receiver, and carries plain bytes: the terminal reads
   the clock's time exactly when none of the six numbers has two digits.
   */
  lemma TimeAnswerExact(t: Bcd.Now)
    ensures Bcd.DecodeTime(TimeBody(t)) == Bcd.DecodeTime(Bcd.EncodeTime(t))
       <==> t.year % 100 < 10 && t.month < 10 && t.day < 10 && t.hour < 10 && t.minute < 10 && t.second < 10
  {
    hide Bcd.Packed, Bcd.DecodeTime, Bcd.EncodeTime, Bcd.IsLeap;
    PlainByteExact(t.year % 100);
    PlainByteExact(t.month);
    PlainByteExact(t.day);
    PlainByteExact(t.hour);
    PlainByteExact(t.minute);
    PlainByteExact(t.second);
    Bcd.EncodedBytes(t);
    Bcd.TimeRoundTrip(t);
    if Bcd.DecodeTime(TimeBody(t)) == Bcd.DecodeTime(Bcd.EncodeTime(t)) {
      var shifted := t.(year := 2000 + t.year % 100);
      Bcd.ShiftedIsValid(t);
      Bcd.TimeFieldRoundTrip(TimeBody(t));
      Bcd.EncodedBytes(shifted);
    }
  }
}
