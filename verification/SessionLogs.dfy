/**
 What the requests of jt808/api.py send and record, and what the logs of the server hold after
 a run: entries are appended in order and never lost.
 */
module SessionLogs {
  import opened Bytes
  import MessageCodec
  import opened Session
  import opened SessionReplies
  import Location808
  import Params

  // ---- Requests ----

  /** The value of a switch: 1 prohibits ignition, or enables the fence. */
  function Switch(on: bool): Byte { if on then 1 else 0 }

  /** The body of a set request: a count, and for each switch given its identifier, a length and one byte. */
  lemma SwitchBytes(e: bool, g: bool)
    ensures Params.SetBody(RequestedParams(Some(e), Some(g)))
         == [2, 0, 0, 0xFF, 0x01, 1, Switch(e), 0, 0, 0xFF, 0x02, 1, Switch(g)]
    ensures Params.SetBody(RequestedParams(Some(e), None)) == [1, 0, 0, 0xFF, 0x01, 1, Switch(e)]
    ensures Params.SetBody(RequestedParams(None, Some(g))) == [1, 0, 0, 0xFF, 0x02, 1, Switch(g)]
    ensures RequestedParams(None, None) == []
  {
    hide Params.EncodeParam, Params.EncodeAll;
    var ecu, fence := Params.Param(0xFF01, [Switch(e)]), Params.Param(0xFF02, [Switch(g)]);
    EncodeSwitch(0xFF01, Switch(e));
    EncodeSwitch(0xFF02, Switch(g));
    EncodeTwo(ecu, fence);
    assert [ecu] + [fence] == [ecu, fence];
    assert [ecu] + [] == [ecu] && [] + [fence] == [fence];
  }

  lemma EncodeSwitch(id: DWord, value: Byte)
    requires id == 0xFF01 || id == 0xFF02
    ensures var p := Params.Param(id, [value]);
            && Params.EncodeParam(p) == [0, 0, 0xFF, id - 0xFF00, 1, value]
            && Params.EncodeAll([p]) == Params.EncodeParam(p)
  {
    assert [Params.Param(id, [value])][1..] == [];
  }

  lemma EncodeTwo(p: Params.Param, q: Params.Param)
    requires |p.value| < 256 && |q.value| < 256
    ensures Params.EncodeAll([p, q]) == Params.EncodeParam(p) + Params.EncodeAll([q])
  {
    hide Params.EncodeParam;
    assert [p, q][1..] == [q];
  }

  /** A control request reaches the terminal as 0x8105 with the command word, under the serial drawn. */
  lemma ControlReads(s: State, phone: string, word: Word)
    requires ParsedPhone(phone)
    ensures var serial := NextSerial(s.serials, phone);
            ReadsAs(MessageCodec.BuildMessage(0x8105, phone, serial, PackWord(word)), phone, serial,
                    Answer(0x8105, [word / 256, word % 256]))
  {
    hide MessageCodec.BuildMessage, ReadsAs, NextSerial;
    BuiltReads(Answer(0x8105, PackWord(word)), phone, NextSerial(s.serials, phone));
  }

  /** A set request reaches it as 0x8103 with the switches; the body is one of those above. */
  lemma SettingReads(s: State, phone: string, ecu: Option<bool>, geofence: Option<bool>)
    requires ParsedPhone(phone)
    ensures var serial, body := NextSerial(s.serials, phone), Params.SetBody(RequestedParams(ecu, geofence));
            ReadsAs(MessageCodec.BuildMessage(0x8103, phone, serial, body), phone, serial, Answer(0x8103, body))
  {
    hide MessageCodec.BuildMessage, ReadsAs, NextSerial;
    BuiltReads(Answer(0x8103, Params.SetBody(RequestedParams(ecu, geofence))), phone, NextSerial(s.serials, phone));
  }

  /** What a byte of count and four bytes each can hold. */
  predicate Fits(ids: seq<int>) {
    |ids| <= 255 && forall i :: 0 <= i < |ids| ==> 0 <= ids[i] <= 0xFFFF_FFFF
  }

  lemma FitsPack(ids: seq<int>)
    ensures Params.Packable(ids) <==> Fits(ids)
  {
  }

  /** What a request for a connected phone changes: the serial is drawn first, and these rows are appended. */
  lemma RequestRows(s: State, e: Event, phone: string)
    requires phone in s.online
    ensures var t, drawn := Next(s, e), s.serials[phone := NextSerial(s.serials, phone)];
            match e
            case SendControl(p, _) => p == phone ==>
              t == s.(serials := drawn,
                      commands := s.commands + [Command(phone, 0x8105, drawn[phone], false, None)])
            case SetParams(p, ecu, geofence) => p == phone && (ecu.Some? || geofence.Some?) ==>
              && t.serials == drawn
              && t.commands == s.commands + [Command(phone, 0x8103, drawn[phone], false, None)]
              && (t.terminals, t.locations, t.online) == (s.terminals, s.locations, s.online)
            case QueryParams(p, ids) => p == phone ==>
              && t == s.(serials := drawn, paramLogs := t.paramLogs)
              && (t.paramLogs == s.paramLogs <==> !Fits(ids))
            case _ => true
  {
    hide Params.Packable, Fits;
    if e.QueryParams? {
      FitsPack(e.ids);
    }
  }

  /** A request for a phone that is not connected, or for no parameter at all, changes nothing. */
  lemma RequestRefused(s: State, e: Event)
    requires match e
             case SendControl(phone, _) => phone !in s.online
             case SetParams(phone, ecu, geofence) => phone !in s.online || (ecu.None? && geofence.None?)
             case QueryParams(phone, _) => phone !in s.online
             case _ => false
    ensures Next(s, e) == s
  {
  }

  // ---- The logs after a run ----

  /** The reports that were accepted, in the order of their arrival. */
  function ReportsOf(events: seq<Event>): seq<LocationRow> {
    if events == [] then []
    else
      var e := events[|events| - 1];
      ReportsOf(events[..|events| - 1])
      + (if !e.Receive? || e.msg.header.msgId != 0x0200 then []
         else match Location808.LocationOf808(e.msg.body)
              case None => []
              case Some(report) => [LocationRow(e.msg.header.phone, report)])
  }

  lemma LocationStep(s: State, e: Event)
    ensures Next(s, e).locations
         == if e.Receive? && e.msg.header.msgId == 0x0200 && Location808.LocationOf808(e.msg.body).Some?
            then s.locations + [LocationRow(e.msg.header.phone, Location808.LocationOf808(e.msg.body).value)]
            else s.locations
  {
    hide Location808.LocationOf808, Params.ReadParams, Params.Packable, Acked, CodeMatches, Touched, NextSerial;
  }

  /** The location log holds what it held before, and then every accepted report in order. */
  lemma {:induction false} LocationsOfRun(s: State, events: seq<Event>)
    ensures Run(s, events).locations == s.locations + ReportsOf(events)
  {
    hide Next, Location808.LocationOf808;
    if events != [] {
      var before := events[..|events| - 1];
      LocationsOfRun(s, before);
      LocationStep(Run(s, before), events[|events| - 1]);
    }
  }

  /** The parameter log entry of an event: a response with all it reported, or a request with its serial. */
  function EntryOf(s: State, e: Event): seq<ParamLog> {
    match e
    case Receive(msg, _, _) =>
      if msg.header.msgId == 0x0104 then [ResponseLog(msg.header.phone, Params.ReadParams(msg.body))] else []
    case SetParams(phone, ecu, geofence) =>
      if phone !in s.online || (ecu.None? && geofence.None?) then []
      else [SetLog(phone, NextSerial(s.serials, phone), RequestedParams(ecu, geofence))]
    case QueryParams(phone, ids) =>
      if phone !in s.online || !Fits(ids) then []
      else [QueryLog(phone, NextSerial(s.serials, phone), ids)]
    case _ => []
  }

  /** The entries of all events of a run, in order. */
  function EntriesOf(s: State, events: seq<Event>): seq<ParamLog> {
    if events == [] then []
    else
      var before := events[..|events| - 1];
      EntriesOf(s, before) + EntryOf(Run(s, before), events[|events| - 1])
  }

  lemma EntryStep(s: State, e: Event)
    ensures Next(s, e).paramLogs == s.paramLogs + EntryOf(s, e)
  {
    hide Location808.LocationOf808, Params.ReadParams, Params.Packable, Acked, CodeMatches, Touched, NextSerial;
    hide Fits;
    assert s.paramLogs + [] == s.paramLogs;
    if e.QueryParams? {
      FitsPack(e.ids);
    }
  }

  /** The parameter log holds what it held before, and then the entries of the run in order. */
  lemma {:induction false} ParamLogsOfRun(s: State, events: seq<Event>)
    ensures Run(s, events).paramLogs == s.paramLogs + EntriesOf(s, events)
  {
    hide Next, EntryOf;
    if events != [] {
      var before := events[..|events| - 1];
      ParamLogsOfRun(s, before);
      EntryStep(Run(s, before), events[|events| - 1]);
    }
  }
}
