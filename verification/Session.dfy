/**
 jt808/handlers.py and the serial draws of jt808/api.py: registration, authentication,
 wrapping per-phone serials and the command log. The functions give each atomic step on
 values; the class below carries the steps out on the module's mutable tables.
 */
module Session {
  import opened Bytes
  import opened MessageCodec
  import Bcd
  import Params
  import Location808

  const TERMINAL_ACK: Word := 0x0001
  const UNREGISTER: Word := 0x0003
  const QUERY_TIME: Word := 0x0004
  const REGISTER: Word := 0x0100
  const AUTHENTICATE: Word := 0x0102
  const PARAMS_RESPONSE: Word := 0x0104
  const LOCATION_REPORT: Word := 0x0200
  const PLATFORM_ACK: Word := 0x8001
  const TIME_RESPONSE: Word := 0x8004
  const REGISTER_RESPONSE: Word := 0x8100
  const CONTROL: Word := 0x8105
  const ECU_IGNITION_SWITCH: DWord := 0xFF01
  const GEOFENCE_SWITCH: DWord := 0xFF02

  // ---- Tables ----

  datatype Terminal = Terminal(authCode: Option<Bytes>, authenticated: bool)

  datatype Command = Command(phone: string, msgId: Word, serial: Word, acked: bool, ackResult: Option<Byte>)

  datatype ParamLog =
    | SetLog(phone: string, serial: Word, params: seq<Params.Param>)
    | QueryLog(phone: string, serial: Word, ids: seq<DWord>)
    | ResponseLog(phone: string, values: map<DWord, Bytes>)

  datatype LocationRow = LocationRow(phone: string, report: Location808.Report808)

  type Writer = nat

  datatype State = State(
    serials: map<string, Word>,
    terminals: map<string, Terminal>,
    commands: seq<Command>,
    paramLogs: seq<ParamLog>,
    locations: seq<LocationRow>,
    online: map<string, Writer>)

  // ---- Steps ----

  /** `_srv_serial` */
  function NextSerial(serials: map<string, Word>, phone: string): Word {
    var last: nat := if phone in serials then serials[phone] else 0;
    (last + 1) % 0x1_0000
  }

  function Drawn(s: State, phone: string): State {
    s.(serials := s.serials[phone := NextSerial(s.serials, phone)])
  }

  /** `_touch_terminal`, as far as a missing row is created */
  function Touched(terminals: map<string, Terminal>, phone: string): map<string, Terminal> {
    if phone in terminals then terminals else terminals[phone := Terminal(None, false)]
  }

  /** `rstrip('\x00')` */
  function StripZeros(b: Bytes): Bytes {
    if b != [] && b[|b| - 1] == 0 then StripZeros(b[..|b| - 1]) else b
  }

  /** The registration body is long enough for all its fields. */
  predicate RegistrationParses(body: Bytes) { |body| >= 50 }

  predicate CodeMatches(terminals: map<string, Terminal>, phone: string, body: Bytes) {
    phone in terminals && terminals[phone].authCode == Some(StripZeros(body))
  }

  predicate IsPending(commands: seq<Command>, phone: string, serial: Word, i: nat) {
    i < |commands| && commands[i].phone == phone && commands[i].serial == serial && !commands[i].acked
  }

  function FirstPending(commands: seq<Command>, phone: string, serial: Word, from: nat): (r: Option<nat>)
    ensures r.Some? ==> IsPending(commands, phone, serial, r.value)
    ensures r.None? ==> forall i :: from <= i ==> !IsPending(commands, phone, serial, i)
    decreases |commands| - from
  {
    if from >= |commands| then None
    else if IsPending(commands, phone, serial, from) then Some(from)
    else FirstPending(commands, phone, serial, from + 1)
  }

  /** The row that the unordered query returns: any pending one, here the one picked if it is pending. */
  function PendingRow(commands: seq<Command>, phone: string, serial: Word, pick: nat): (r: Option<nat>)
    ensures r.Some? ==> IsPending(commands, phone, serial, r.value)
    ensures r.None? ==> forall i :: !IsPending(commands, phone, serial, i)
    ensures IsPending(commands, phone, serial, pick) ==> r == Some(pick)
  {
    if IsPending(commands, phone, serial, pick) then Some(pick)
    else FirstPending(commands, phone, serial, 0)
  }

  function Flipped(commands: seq<Command>, i: nat, result: Byte): seq<Command>
    requires i < |commands|
  {
    commands[i := commands[i].(acked := true, ackResult := Some(result))]
  }

  function Acked(commands: seq<Command>, phone: string, serial: Word, result: Byte, pick: nat): seq<Command> {
    match PendingRow(commands, phone, serial, pick)
    case None => commands
    case Some(i) => Flipped(commands, i, result)
  }

  /** What a step takes from outside: a fresh authentication code, the clock, and the database's choice. */
  datatype Env = Env(freshCode: Bytes, now: Now, pick: nat)

  type Now = Bcd.Now

  /** What the handler of a message changes in the tables, without the serial drawn for the answer. */
  function Handled(s: State, msg: Message, env: Env): State {
    var phone, body := msg.header.phone, msg.body;
    if msg.header.msgId == REGISTER then
      if !RegistrationParses(body) then s
      else s.(terminals := s.terminals[phone := Terminal(Some(env.freshCode), false)])
    else if msg.header.msgId == AUTHENTICATE then
      if CodeMatches(s.terminals, phone, body) then
        s.(terminals := s.terminals[phone := s.terminals[phone].(authenticated := true)])
      else s
    else if msg.header.msgId == UNREGISTER then s.(online := s.online - {phone})
    else if msg.header.msgId == LOCATION_REPORT then
      match Location808.LocationOf808(body)
      case None => s
      case Some(report) => s.(locations := s.locations + [LocationRow(phone, report)])
    else if msg.header.msgId == TERMINAL_ACK then
      if |body| < 5 then s
      else s.(commands := Acked(s.commands, phone, WordAt(body, 0), body[4], env.pick))
    else if msg.header.msgId == PARAMS_RESPONSE then
      s.(paramLogs := s.paramLogs + [ResponseLog(phone, Params.ReadParams(body))])
    else s
  }

  /** The row of the terminal is created before the handler runs. */
  function Effect(s: State, msg: Message, env: Env): State {
    Handled(s.(terminals := Touched(s.terminals, msg.header.phone)), msg, env)
  }

  datatype Answer = Answer(msgId: Word, body: Bytes)

  function PlatformAck(msg: Message, result: Byte): Answer {
    Answer(PLATFORM_ACK, PackWord(msg.header.serialNo) + PackWord(msg.header.msgId) + [result])
  }

  function AnswerTo(s: State, msg: Message, env: Env): Option<Answer> {
    var id, body := msg.header.msgId, msg.body;
    if id == TERMINAL_ACK || id == PARAMS_RESPONSE then None
    else if id == REGISTER then
      Some(Answer(REGISTER_RESPONSE,
                  PackWord(msg.header.serialNo) + (if RegistrationParses(body) then [0] + env.freshCode else [1])))
    else if id == AUTHENTICATE then
      Some(PlatformAck(msg, if CodeMatches(s.terminals, msg.header.phone, body) then 0 else 1))
    else if id == QUERY_TIME then Some(Answer(TIME_RESPONSE, Bcd.EncodeTime(env.now)))
    else if id == LOCATION_REPORT then
      Some(PlatformAck(msg, if Location808.LocationOf808(body).Some? then 0 else 1))
    else Some(PlatformAck(msg, 0))
  }

  function Dispatched(s: State, msg: Message, env: Env): State {
    var t := Effect(s, msg, env);
    if AnswerTo(s, msg, env).Some? then Drawn(t, msg.header.phone) else t
  }

  function ReplyBytes(s: State, msg: Message, env: Env): Option<Bytes>
    requires Bcd.AllHex(msg.header.phone)
  {
    match AnswerTo(s, msg, env)
    case None => None
    case Some(answer) =>
      Some(BuildMessage(answer.msgId, msg.header.phone, NextSerial(s.serials, msg.header.phone), answer.body))
  }

  /** The parameters of a set request: a byte for every switch that was given. */
  function RequestedParams(ecu: Option<bool>, geofence: Option<bool>): seq<Params.Param> {
    (match ecu case None => [] case Some(b) => [Params.Param(ECU_IGNITION_SWITCH, [if b then 1 else 0])])
    + (match geofence case None => [] case Some(b) => [Params.Param(GEOFENCE_SWITCH, [if b then 1 else 0])])
  }

  function Commanded(s: State, phone: string, msgId: Word): State {
    Drawn(s, phone).(commands := s.commands + [Command(phone, msgId, NextSerial(s.serials, phone), false, None)])
  }

  datatype Event =
    | Receive(msg: Message, writer: Writer, env: Env)
    | SendControl(phone: string, word: Word)
    | SetParams(phone: string, ecu: Option<bool>, geofence: Option<bool>)
    | QueryParams(phone: string, ids: seq<int>)
    | Unregister(phone: string)

  /** One atomic step. A request for a phone that is not online, or an empty set request, changes nothing. */
  function Next(s: State, e: Event): State {
    match e
    case Receive(msg, writer, env) =>
      Dispatched(s.(online := s.online[msg.header.phone := writer]), msg, env)
    case SendControl(phone, _) =>
      if phone in s.online then Commanded(s, phone, CONTROL) else s
    case SetParams(phone, ecu, geofence) =>
      var params := RequestedParams(ecu, geofence);
      if phone in s.online && params != [] then
        Commanded(s, phone, Params.MSG_SET_PARAMS)
        .(paramLogs := s.paramLogs + [SetLog(phone, NextSerial(s.serials, phone), params)])
      else s
    case QueryParams(phone, ids) =>
      if phone !in s.online then s
      else if !Params.Packable(ids) then Drawn(s, phone)
      else Drawn(s, phone).(paramLogs := s.paramLogs + [QueryLog(phone, NextSerial(s.serials, phone), ids)])
    case Unregister(phone) => s.(online := s.online - {phone})
  }

  function Run(s: State, events: seq<Event>): State {
    if events == [] then s else Next(Run(s, events[..|events| - 1]), events[|events| - 1])
  }

  // ---- The tables in place ----

  class Server {
    var serials: map<string, Word>
    var terminals: map<string, Terminal>
    var commands: seq<Command>
    var paramLogs: seq<ParamLog>
    var locations: seq<LocationRow>
    var online: map<string, Writer>

    function Tables(): State
      reads this
    {
      State(serials, terminals, commands, paramLogs, locations, online)
    }

    /** Every connected phone came out of a parsed header. */
    predicate Valid()
      reads this
    {
      forall p :: p in online ==> Bcd.AllHex(p)
    }

    /** A process starts with the tables of the database, no counter and no connection. */
    constructor (terminals: map<string, Terminal>, commands: seq<Command>,
                 paramLogs: seq<ParamLog>, locations: seq<LocationRow>)
      ensures Valid()
      ensures Tables() == State(map[], terminals, commands, paramLogs, locations, map[])
    {
      this.terminals, this.commands, this.paramLogs, this.locations := terminals, commands, paramLogs, locations;
      serials, online := map[], map[];
    }

    method SrvSerial(phone: string) returns (serial: Word)
      modifies this`serials
      ensures Tables() == Drawn(old(Tables()), phone)
      ensures serial == NextSerial(old(serials), phone)
    {
      var last: nat := if phone in serials then serials[phone] else 0;
      serials := serials[phone := (last + 1) % 0x1_0000];
      serial := serials[phone];
    }

    method Register(phone: string, writer: Writer)
      requires Valid() && Bcd.AllHex(phone)
      modifies this`online
      ensures Valid()
      ensures Tables() == old(Tables()).(online := old(online)[phone := writer])
    {
      online := online[phone := writer];
    }

    method UnregisterPhone(phone: string)
      modifies this`online
      ensures old(Valid()) ==> Valid()
      ensures Tables() == Next(old(Tables()), Unregister(phone))
    {
      online := online - {phone};
    }

    method HandleRegistration(msg: Message, freshCode: Bytes) returns (answer: Answer)
      modifies this`terminals
      requires msg.header.msgId == REGISTER
      ensures forall now, pick :: Tables() == Handled(old(Tables()), msg, Env(freshCode, now, pick))
      ensures forall now, pick :: AnswerTo(old(Tables()), msg, Env(freshCode, now, pick)) == Some(answer)
    {
      var body := msg.body;
      if |body| < 50 {
        return Answer(REGISTER_RESPONSE, PackWord(msg.header.serialNo) + [1]);
      }
      var terminal := if msg.header.phone in terminals then terminals[msg.header.phone] else Terminal(None, false);
      terminal := terminal.(authCode := Some(freshCode));
      terminal := terminal.(authenticated := false);
      terminals := terminals[msg.header.phone := terminal];
      answer := Answer(REGISTER_RESPONSE, PackWord(msg.header.serialNo) + ([0] + freshCode));
    }

    method HandleAuthentication(msg: Message) returns (answer: Answer)
      modifies this`terminals
      requires msg.header.msgId == AUTHENTICATE
      ensures forall env :: Tables() == Handled(old(Tables()), msg, env)
      ensures forall env :: AnswerTo(old(Tables()), msg, env) == Some(answer)
    {
      var code := StripZeros(msg.body);
      if msg.header.phone !in terminals || terminals[msg.header.phone].authCode != Some(code) {
        answer := PlatformAck(msg, 1);
      } else {
        terminals := terminals[msg.header.phone := terminals[msg.header.phone].(authenticated := true)];
        answer := PlatformAck(msg, 0);
      }
    }

    method HandleLocationReport(msg: Message) returns (answer: Answer)
      modifies this`locations
      requires msg.header.msgId == LOCATION_REPORT
      ensures forall env :: Tables() == Handled(old(Tables()), msg, env)
      ensures forall env :: AnswerTo(old(Tables()), msg, env) == Some(answer)
    {
      hide Location808.LocationOf808, PlatformAck, Params.ReadParams, Acked, CodeMatches, Bcd.EncodeTime;
      var report := Location808.ParseLocationReport808(msg.body);
      if report.None? {
        answer := PlatformAck(msg, 1);
      } else {
        locations := locations + [LocationRow(msg.header.phone, report.value)];
        answer := PlatformAck(msg, 0);
      }
    }

    /** The row found is any pending one; the ghost result names it. */
    method HandleTerminalAck(msg: Message) returns (ghost pick: nat)
      modifies this`commands
      requires msg.header.msgId == TERMINAL_ACK
      ensures forall freshCode, now :: Tables() == Handled(old(Tables()), msg, Env(freshCode, now, pick))
    {
      pick := 0;
      if |msg.body| < 5 {
        return;
      }
      var respSerial := WordAt(msg.body, 0);
      if i :| 0 <= i < |commands| && IsPending(commands, msg.header.phone, respSerial, i) {
        pick := i;
        var cmd := commands[i];
        commands := commands[i := cmd.(acked := true, ackResult := Some(msg.body[4]))];
      } else {
        assert forall i :: !IsPending(commands, msg.header.phone, respSerial, i);
      }
    }

    method HandleParamsResponse(msg: Message)
      modifies this`paramLogs
      requires msg.header.msgId == PARAMS_RESPONSE
      ensures forall env :: Tables() == Handled(old(Tables()), msg, env)
    {
      var params := Params.ParseParamsResponse(msg.body);
      paramLogs := paramLogs + [ResponseLog(msg.header.phone, params)];
    }

    method Dispatch(msg: Message, freshCode: Bytes, now: Now) returns (reply: Option<Bytes>, ghost pick: nat)
      requires Valid() && Bcd.AllHex(msg.header.phone)
      modifies this
      ensures Valid()
      ensures Tables() == Dispatched(old(Tables()), msg, Env(freshCode, now, pick))
      ensures reply == ReplyBytes(old(Tables()), msg, Env(freshCode, now, pick))
    {
      hide Location808.LocationOf808, Params.ReadParams, Acked, CodeMatches, BuildMessage, Bcd.EncodeTime, NextSerial;
      var phone, id := msg.header.phone, msg.header.msgId;
      pick := 0;
      if phone !in terminals {
        terminals := terminals[phone := Terminal(None, false)];
      }
      assert Tables() == old(Tables()).(terminals := Touched(old(terminals), phone));
      var answer: Answer;
      if id == REGISTER {
        answer := HandleRegistration(msg, freshCode);
      } else if id == AUTHENTICATE {
        answer := HandleAuthentication(msg);
      } else if id == UNREGISTER {
        UnregisterPhone(phone);
        answer := PlatformAck(msg, 0);
      } else if id == QUERY_TIME {
        answer := Answer(TIME_RESPONSE, Bcd.EncodeTime(now));
      } else if id == LOCATION_REPORT {
        answer := HandleLocationReport(msg);
      } else if id == TERMINAL_ACK {
        pick := HandleTerminalAck(msg);
        TouchFirst(old(Tables()), msg, Env(freshCode, now, pick));
        return None, pick;
      } else if id == PARAMS_RESPONSE {
        HandleParamsResponse(msg);
        TouchFirst(old(Tables()), msg, Env(freshCode, now, pick));
        return None, pick;
      } else {
        answer := PlatformAck(msg, 0);
      }
      TouchFirst(old(Tables()), msg, Env(freshCode, now, pick));
      var serial := SrvSerial(phone);
      reply := Some(BuildMessage(answer.msgId, phone, serial, answer.body));
    }

    method SendControlCommand(phone: string, word: Word) returns (data: Option<Bytes>)
      requires Valid()
      modifies this
      ensures Valid()
      ensures Tables() == Next(old(Tables()), SendControl(phone, word))
      ensures data == if phone in old(online)
                      then Some(BuildMessage(0x8105, phone, NextSerial(old(serials), phone), PackWord(word)))
                      else None
    {
      if phone !in online {
        return None;
      }
      var serial := SrvSerial(phone);
      data := Some(BuildMessage(CONTROL, phone, serial, PackWord(word)));
      commands := commands + [Command(phone, CONTROL, serial, false, None)];
    }

    method SetParameters(phone: string, ecu: Option<bool>, geofence: Option<bool>) returns (data: Option<Bytes>)
      requires Valid()
      modifies this
      ensures Valid()
      ensures Tables() == Next(old(Tables()), SetParams(phone, ecu, geofence))
      ensures data.Some? <==> phone in old(online) && (ecu.Some? || geofence.Some?)
      ensures data.Some? ==>
                data.value == BuildMessage(0x8103, phone, NextSerial(old(serials), phone),
                                           Params.SetBody(RequestedParams(ecu, geofence)))
    {
      hide BuildMessage, Params.EncodeAll, NextSerial;
      if phone !in online {
        return None;
      }
      var params: seq<Params.Param> := [];
      if ecu.Some? {
        params := params + [Params.Param(ECU_IGNITION_SWITCH, [if ecu.value then 1 else 0])];
      }
      if geofence.Some? {
        params := params + [Params.Param(GEOFENCE_SWITCH, [if geofence.value then 1 else 0])];
      }
      assert params == RequestedParams(ecu, geofence);
      if params == [] {
        return None;
      }
      var serial := SrvSerial(phone);
      var raw := Params.BuildSetParams(phone, serial, params);
      paramLogs := paramLogs + [SetLog(phone, serial, params)];
      commands := commands + [Command(phone, Params.MSG_SET_PARAMS, serial, false, None)];
      data := Some(raw);
    }

    /** Identifiers that cannot be packed fail after the serial was drawn. */
    method QueryParameters(phone: string, ids: seq<int>) returns (data: Option<Bytes>)
      requires Valid()
      modifies this
      ensures Valid()
      ensures Tables() == Next(old(Tables()), QueryParams(phone, ids))
      ensures data == if phone in old(online) && Params.Packable(ids)
                      then Some(BuildMessage(0x8106, phone, NextSerial(old(serials), phone),
                                             Params.QueryBody(ids)))
                      else None
    {
      hide BuildMessage, Params.PackAll;
      if phone !in online {
        return None;
      }
      var serial := SrvSerial(phone);
      data := Params.BuildQueryParams(phone, serial, ids);
      if data.Some? {
        paramLogs := paramLogs + [QueryLog(phone, serial, ids)];
      }
    }
  }

  /** Creating the missing row first makes no difference to the answer: it carries no code. */
  lemma TouchFirst(s: State, msg: Message, env: Env)
    ensures var t := s.(terminals := Touched(s.terminals, msg.header.phone));
            Effect(s, msg, env) == Handled(t, msg, env) && AnswerTo(t, msg, env) == AnswerTo(s, msg, env)
  {
  }
}
