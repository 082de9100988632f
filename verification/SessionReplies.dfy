/** The reply discipline of jt808/handlers.py: who is answered, under which phone and serial, and with what. */
module SessionReplies {
  import opened Bytes
  import opened Stuffing
  import opened Checksum
  import opened MessageCodec
  import opened Session
  import opened SessionAuth
  import SessionHistory
  import Extraction
  import Streams
  import Bcd
  import Location808

  /** Twelve upper-case hexadecimal digits, as every parsed message carries. */
  predicate ParsedPhone(phone: string) {
    |phone| == 12 && Bcd.AllHex(phone) && Bcd.Recase(phone, true) == phone
  }

  /** Exactly the terminal's own acknowledgements and parameter responses stay unanswered. */
  lemma AnsweredExactly(s: State, msg: Message, env: Env)
    ensures AnswerTo(s, msg, env).None? <==> msg.header.msgId == 0x0001 || msg.header.msgId == 0x0104
  {
  }

  /** Whether a request is granted: all but a wrong code and a location report that is refused. */
  ghost predicate Granted(s: State, msg: Message) {
    if msg.header.msgId == 0x0102 then CarriesCurrent(msg.body, CodeIn(s.terminals, msg.header.phone))
    else msg.header.msgId == 0x0200 ==> Location808.LocationOf808(msg.body).Some?
  }

  /** The identifier and the bytes of the answer to every message. */
  lemma AnswerBytes(s: State, msg: Message, env: Env)
    requires msg.header.msgId != 0x0001 && msg.header.msgId != 0x0104
    ensures var id, serial := msg.header.msgId, msg.header.serialNo;
            AnswerTo(s, msg, env)
            == if id == 0x0100 then
                 Some(Answer(0x8100, if |msg.body| < 50 then [serial / 256, serial % 256, 1]
                                     else [serial / 256, serial % 256, 0] + env.freshCode))
               else if id == 0x0004 then Some(Answer(0x8004, Bcd.EncodeTime(env.now)))
               else Some(Answer(0x8001, [serial / 256, serial % 256, id / 256, id % 256,
                                         if Granted(s, msg) then 0 else 1]))
  {
    if msg.header.msgId == 0x0100 {
      RegistrationAnswer(s, msg, env);
    } else if msg.header.msgId == 0x0102 {
      AttemptExact(s, Receive(msg, 0, env), msg.header.phone);
    } else {
      GeneralIsAck(msg, 0);
      GeneralIsAck(msg, 1);
      OtherAnswer(s, msg, env);
    }
  }

  lemma OtherAnswer(s: State, msg: Message, env: Env)
    requires var id := msg.header.msgId; id != 0x0001 && id != 0x0104 && id != 0x0100 && id != 0x0102
    ensures AnswerTo(s, msg, env)
         == Some(if msg.header.msgId == 0x0004 then Answer(0x8004, Bcd.EncodeTime(env.now))
                 else PlatformAck(msg, if Granted(s, msg) then 0 else 1))
  {
    hide Location808.LocationOf808, PlatformAck, Bcd.EncodeTime;
  }

  /** So every answer but the time begins with the serial of the request, and the time is the clock's. */
  lemma AnswerEchoes(s: State, msg: Message, env: Env)
    requires AnswerTo(s, msg, env).Some?
    ensures msg.header.msgId != 0x0004 ==>
              var body := AnswerTo(s, msg, env).value.body;
              |body| >= 2 && WordAt(body, 0) == msg.header.serialNo
    ensures msg.header.msgId == 0x0004 ==>
              Bcd.DecodeTime(AnswerTo(s, msg, env).value.body) == Some(env.now.(year := 2000 + env.now.year % 100))
  {
    hide AnswerTo, Bcd.EncodeTime, Bcd.DecodeTime, Bcd.ValidTime, Granted;
    AnsweredExactly(s, msg, env);
    AnswerBytes(s, msg, env);
    if msg.header.msgId == 0x0004 {
      Bcd.TimeRoundTrip(env.now);
    }
  }

  /** A framed message is extracted by the receiver as one payload that parses to what was built. */
  lemma BuiltArrives(msgId: Word, phone: string, serialNo: Word, body: Bytes)
    requires ParsedPhone(phone)
    ensures var h := Header(msgId, phone, serialNo, 0, 0, false, 0, 0);
            var sealed := Seal(EncodeHeader(h, |body|) + body);
            && Extraction.Scan(Extraction.START, BuildMessage(msgId, phone, serialNo, body)).segments
               == [Escape(sealed)]
            && Unescape(Escape(sealed)) == sealed
            && ParseMessage(sealed) == Parsed(Message(h.(bodyLength := |body| % 1024), body, sealed))
  {
    var h := Header(msgId, phone, serialNo, 0, 0, false, 0, 0);
    var inner := EncodeHeader(h, |body|) + body;
    MessageRoundTrip(h, body);
    StuffingRoundTrip(Seal(inner));
    Streams.ExtractOne(Escape(Seal(inner)));
    assert Bcd.ZFill(phone, 12) == phone;
    assert Normalised(h, |body|) == h.(bodyLength := |body| % 1024);
  }

  /** What the terminal reads out of a reply: the same phone, the serial just drawn, the answer's body. */
  ghost predicate ReadsAs(raw: Bytes, phone: string, serial: Word, answer: Answer) {
    exists sealed: Bytes ::
      && Extraction.Payloads(Extraction.Scan(Extraction.START, raw).segments) == [sealed]
      && var parsed := ParseMessage(sealed);
         && parsed.Parsed?
         && parsed.msg.header.phone == phone && parsed.msg.header.serialNo == serial
         && parsed.msg.header.msgId == answer.msgId && parsed.msg.body == answer.body
  }

  lemma ReplyReads(s: State, msg: Message, env: Env)
    requires ParsedPhone(msg.header.phone)
    ensures match AnswerTo(s, msg, env)
            case None => ReplyBytes(s, msg, env) == None
            case Some(answer) =>
              && ReplyBytes(s, msg, env).Some?
              && ReadsAs(ReplyBytes(s, msg, env).value, msg.header.phone,
                         NextSerial(s.serials, msg.header.phone), answer)
  {
    match AnswerTo(s, msg, env)
    case None =>
    case Some(answer) =>
      BuiltReads(answer, msg.header.phone, NextSerial(s.serials, msg.header.phone));
  }

  lemma BuiltReads(answer: Answer, phone: string, serial: Word)
    requires ParsedPhone(phone)
    ensures ReadsAs(BuildMessage(answer.msgId, phone, serial, answer.body), phone, serial, answer)
  {
    hide BuildMessage, EncodeHeader, ParseMessage;
    var h := Header(answer.msgId, phone, serial, 0, 0, false, 0, 0);
    var sealed := Seal(EncodeHeader(h, |answer.body|) + answer.body);
    BuiltArrives(answer.msgId, phone, serial, answer.body);
    assert Extraction.Payloads([Escape(sealed)][1..]) == [];
    assert Extraction.Payloads([Escape(sealed)]) == [sealed];
  }

  /**
   Over any run: the reply to the next message, if it gets one, reads under the phone of the
   request with the serial that continues the phone's sequence, and that draw is recorded.
   */
  lemma ReplyDiscipline(s: State, events: seq<Session.Event>, msg: Message, writer: Writer, env: Env)
    requires SessionHistory.JustStarted(s) && ParsedPhone(msg.header.phone)
    ensures var t, phone := Run(s, events), msg.header.phone;
            var drawn := |SessionHistory.Draws(SessionHistory.Traced(s, events), phone)|;
            match AnswerTo(t, msg, env)
            case None => Next(t, Receive(msg, writer, env)).serials == t.serials
            case Some(answer) =>
              && ReplyBytes(t, msg, env).Some?
              && ReadsAs(ReplyBytes(t, msg, env).value, phone, (drawn + 1) % 0x1_0000, answer)
              && Next(t, Receive(msg, writer, env)).serials == t.serials[phone := (drawn + 1) % 0x1_0000]
  {
    hide Next, AnswerTo, ReplyBytes, ReadsAs;
    var t := Run(s, events);
    SessionHistory.SerialsRun(s, events);
    ReplyReads(t, msg, env);
    SessionHistory.CounterStep(t, Receive(msg, writer, env));
    AnsweredExactly(t, msg, env);
    assert SessionHistory.PhoneInOrder(t, SessionHistory.Traced(s, events), msg.header.phone);
    NextInSequence(t, SessionHistory.Traced(s, events), msg.header.phone);
  }

  lemma NextInSequence(s: State, h: SessionHistory.History, phone: string)
    requires SessionHistory.PhoneInOrder(s, h, phone)
    ensures NextSerial(s.serials, phone) == (|SessionHistory.Draws(h, phone)| + 1) % 0x1_0000
  {
  }
}
