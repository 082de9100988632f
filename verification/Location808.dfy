/** jt808/protocol.py: the second parser of the location report. */
module Location808 {
  import opened Bytes
  import opened Bcd
  import opened Location
  import opened Items

  datatype Additional = Additional(
    mileage: Option<DWord>, fuel: Option<Word>, speedCan: Option<Word>, alarmId: Option<Word>,
    extSignal: Option<DWord>, ioStatus: Option<Word>, analog: Option<DWord>,
    signalStrength: Option<Byte>, gnssSatellites: Option<Byte>,
    customAlarmStatus: Option<Byte>, customEcuIgnition: Option<Byte>)

  const NOTHING := Additional(None, None, None, None, None, None, None, None, None, None, None)

  datatype Report808 = Report808(
    alarmFlag: DWord, status: DWord, latitude: int, longitude: int,
    altitude: Word, speed: Word, direction: Word, timestamp: DateTime, additional: Additional)

  /** The combinations of id and declared length that set a field. */
  predicate Recognised(id: Byte, len: nat) {
    || (len == 4 && (id == 0x01 || id == 0x25 || id == 0x2B))
    || (len == 2 && (id == 0x02 || id == 0x03 || id == 0x04 || id == 0x2A))
    || (len == 1 && (id == 0x30 || id == 0x31))
    || (len >= 2 && id == 0xEE)
  }

  /** None stands for the struct.error or IndexError of data shorter than declared. */
  function Apply808(a: Additional, id: Byte, len: nat, data: Bytes): Option<Additional>
    requires |data| <= len
  {
    if !Recognised(id, len) then Some(a)
    else if id == 0xEE then
      if |data| < 2 then None
      else Some(a.(customAlarmStatus := Some(data[0]), customEcuIgnition := Some(data[1])))
    else if |data| < len then None
    else Some(
      match id
      case 0x01 => a.(mileage := Some(DWordAt(data, 0)))
      case 0x02 => a.(fuel := Some(WordAt(data, 0)))
      case 0x03 => a.(speedCan := Some(WordAt(data, 0)))
      case 0x04 => a.(alarmId := Some(WordAt(data, 0)))
      case 0x25 => a.(extSignal := Some(DWordAt(data, 0)))
      case 0x2A => a.(ioStatus := Some(WordAt(data, 0)))
      case 0x2B => a.(analog := Some(DWordAt(data, 0)))
      case 0x30 => a.(signalStrength := Some(data[0]))
      case _ => a.(gnssSatellites := Some(data[0])))
  }

  /** The loop over the additional items, which cuts the last one short instead of ignoring it. */
  function Run808(a: Additional, rest: Bytes): Option<Additional>
    decreases |rest|
  {
    if |rest| < 2 then Some(a)
    else
      var len: nat := rest[1];
      match Apply808(a, rest[0], len, Slice(rest, 2, 2 + len))
      case None => None
      case Some(next) => Run808(next, Slice(rest, 2 + len, |rest|))
  }

  function LocationOf808(body: Bytes): Option<Report808> {
    if |body| < 22 then None
    else
      match DecodeTime(Slice(body, 22, 28))
      case None => None
      case Some(time) =>
        match Run808(NOTHING, Slice(body, 28, |body|))
        case None => None
        case Some(additional) =>
          var status := DWordAt(body, 4);
          Some(Report808(DWordAt(body, 0), status,
                         Signed(DWordAt(body, 8), Bit(status, 4)), Signed(DWordAt(body, 12), Bit(status, 5)),
                         WordAt(body, 16), WordAt(body, 18), WordAt(body, 20), time, additional))
  }

  method ParseLocationReport808(body: Bytes) returns (result: Option<Report808>)
    ensures result == LocationOf808(body)
  {
    if |body| < 22 {
      return None;
    }
    var status := DWordAt(body, 4);
    var time := DecodeTime(Slice(body, 22, 28));
    if time.None? {
      return None;
    }
    var latitude: int := DWordAt(body, 8);
    var longitude: int := DWordAt(body, 12);
    if Bit(status, 4) {
      latitude := 0 - latitude;
    }
    if Bit(status, 5) {
      longitude := 0 - longitude;
    }
    var additional := ParseItems(body);
    if additional.None? {
      return None;
    }
    result := Some(Report808(DWordAt(body, 0), status, latitude, longitude,
                             WordAt(body, 16), WordAt(body, 18), WordAt(body, 20), time.value, additional.value));
  }

  method ParseItems(body: Bytes) returns (result: Option<Additional>)
    ensures result == Run808(NOTHING, Slice(body, 28, |body|))
  {
    hide Apply808, Run808, Slice;
    var additional := NOTHING;
    var offset := 28;
    while offset + 2 <= |body|
      invariant Run808(additional, Slice(body, offset, |body|)) == Run808(NOTHING, Slice(body, 28, |body|))
      decreases |body| - offset
    {
      var infoId := body[offset];
      var infoLen: nat := body[offset + 1];
      var infoData := Slice(body, offset + 2, offset + 2 + infoLen);
      LoopStep808(additional, body, offset);
      var next := Apply808(additional, infoId, infoLen, infoData);
      if next.None? {
        return None;
      }
      additional := next.value;
      offset := offset + 2 + infoLen;
    }
    Short808(additional, Slice(body, offset, |body|));
    result := Some(additional);
  }

  lemma Short808(a: Additional, rest: Bytes)
    requires |rest| < 2
    ensures Run808(a, rest) == Some(a)
  {
  }

  lemma LoopStep808(a: Additional, body: Bytes, offset: nat)
    requires offset + 2 <= |body|
    ensures var n: nat := body[offset + 1];
            Run808(a, Slice(body, offset, |body|))
            == match Apply808(a, body[offset], n, Slice(body, offset + 2, offset + 2 + n))
               case None => None
               case Some(next) => Run808(next, Slice(body, offset + 2 + n, |body|))
  {
    hide Apply808;
    SliceOfRest(body, offset, 2, body[offset + 1]);
  }

  /** One complete item is applied whole. */
  lemma Step808(a: Additional, rest: Bytes)
    requires !Truncated(rest)
    ensures var item := First(rest);
            Run808(a, rest) == match Apply808(a, item.id, |item.data|, item.data)
                               case None => None
                               case Some(next) => Run808(next, After(rest))
  {
    assert Slice(rest, 2 + Declared(rest), |rest|) == After(rest);
  }

  /** A truncated last item is applied to the bytes that are there. */
  lemma Last808(a: Additional, rest: Bytes)
    requires Truncated(rest)
    ensures Run808(a, rest)
         == if |rest| < 2 then Some(a) else Apply808(a, rest[0], Declared(rest), rest[2..])
  {
    if |rest| >= 2 {
      assert Slice(rest, 2, 2 + Declared(rest)) == rest[2..];
      assert Slice(rest, 2 + Declared(rest), |rest|) == [];
    }
  }

  lemma Applied808(a: Additional, id: Byte, len: nat, data: Bytes)
    requires |data| <= len
    ensures Apply808(a, id, len, data).None? <==>
            Recognised(id, len) && |data| < (if id == 0xEE then 2 else len)
  {
  }

  /** The bytes break off in a recognised item; an 0xEE item needs only its first two bytes. */
  predicate BreaksOff(rest: Bytes) {
    var tail := Tail(rest);
    |tail| >= 2 && Recognised(tail[0], Declared(tail)) && !(tail[0] == 0xEE && |tail| >= 4)
  }

  /** The loop fails exactly then. */
  lemma {:induction false} Run808Fails(a: Additional, rest: Bytes)
    ensures Run808(a, rest).None? <==> BreaksOff(rest)
    decreases rest
  {
    if Truncated(rest) {
      Last808(a, rest);
      if |rest| >= 2 {
        Applied808(a, rest[0], Declared(rest), rest[2..]);
      }
    } else {
      var item := First(rest);
      Step808(a, rest);
      Applied808(a, item.id, |item.data|, item.data);
      Run808Fails(Apply808(a, item.id, |item.data|, item.data).value, After(rest));
    }
  }

  // ---- What the loop computes ----

  /** The bytes that the 0xEE fields are read from: a truncated last item counts if both are there. */
  function CustomData(rest: Bytes): (r: Option<Bytes>)
    ensures r.Some? ==> |r.value| >= 2
  {
    var tail := Tail(rest);
    if |tail| >= 4 && tail[0] == 0xEE then Some(tail[2..]) else Last(Complete(rest), 0xEE, AtLeast(2))
  }

  /** Every field holds the last item of its id with exactly its length. */
  predicate LastWins808(before: Additional, rest: Bytes, after: Additional) {
    var items := Complete(rest);
    && after.mileage == DWordOf(Last(items, 0x01, Exactly(4)), before.mileage)
    && after.fuel == WordOf(Last(items, 0x02, Exactly(2)), before.fuel)
    && after.speedCan == WordOf(Last(items, 0x03, Exactly(2)), before.speedCan)
    && after.alarmId == WordOf(Last(items, 0x04, Exactly(2)), before.alarmId)
    && after.extSignal == DWordOf(Last(items, 0x25, Exactly(4)), before.extSignal)
    && after.ioStatus == WordOf(Last(items, 0x2A, Exactly(2)), before.ioStatus)
    && after.analog == DWordOf(Last(items, 0x2B, Exactly(4)), before.analog)
    && after.signalStrength == ByteOf(Last(items, 0x30, Exactly(1)), 0, before.signalStrength)
    && after.gnssSatellites == ByteOf(Last(items, 0x31, Exactly(1)), 0, before.gnssSatellites)
    && after.customAlarmStatus == ByteOf(CustomData(rest), 0, before.customAlarmStatus)
    && after.customEcuIgnition == ByteOf(CustomData(rest), 1, before.customEcuIgnition)
  }

  /** The loop succeeds with exactly the record of which this holds. */
  lemma {:induction false} RunIsLastWins(before: Additional, rest: Bytes, after: Additional)
    ensures Run808(before, rest) == Some(after) <==> !BreaksOff(rest) && LastWins808(before, rest, after)
    decreases rest
  {
    hide Run808, Apply808, LastWins808;
    Run808Fails(before, rest);
    if !BreaksOff(rest) {
      if Truncated(rest) {
        LastWinsAtEnd(before, rest, after);
      } else {
        var item := First(rest);
        Step808(before, rest);
        Applied808(before, item.id, |item.data|, item.data);
        RunIsLastWins(Apply808(before, item.id, |item.data|, item.data).value, After(rest), after);
        LastWinsStep(before, rest, after);
      }
    }
  }

  lemma LastWinsAtEnd(before: Additional, rest: Bytes, after: Additional)
    requires Truncated(rest) && !BreaksOff(rest)
    ensures Run808(before, rest) == Some(after) <==> LastWins808(before, rest, after)
  {
    hide Run808, WordAt, DWordAt;
    Last808(before, rest);
  }

  lemma LastWinsStep(before: Additional, rest: Bytes, after: Additional)
    requires !Truncated(rest)
    ensures var item := First(rest);
            var next := Apply808(before, item.id, |item.data|, item.data);
            next.Some? && (LastWins808(next.value, After(rest), after) <==> LastWins808(before, rest, after))
  {
    hide WordAt, DWordAt, First, After, CustomData;
    assert Complete(rest)[1..] == Complete(After(rest)) && Complete(rest)[0] == First(rest);
    CustomDataStep(rest);
  }

  lemma CustomDataStep(rest: Bytes)
    requires !Truncated(rest)
    ensures CustomData(rest) == if CustomData(After(rest)).Some? then CustomData(After(rest))
                                else if Matches(First(rest), 0xEE, AtLeast(2)) then Some(First(rest).data)
                                else None
  {
    assert Complete(rest)[1..] == Complete(After(rest)) && Complete(rest)[0] == First(rest);
  }

  /** A body is refused exactly when it is too short, carries an invalid time or breaks off in a recognised item. */
  lemma Refused808(body: Bytes)
    ensures LocationOf808(body).None? <==>
            || |body| < 28
            || DecodeTime(body[22..28]).None?
            || BreaksOff(body[28..])
  {
    if 22 <= |body| < 28 {
      ShortTimeFieldFails(Slice(body, 22, 28));
    } else if |body| >= 28 {
      assert Slice(body, 28, |body|) == body[28..];
      Run808Fails(NOTHING, body[28..]);
    }
  }

  /** Where the fixed part lies, and which status bits make the coordinates negative: 4 is south and 5 is west. */
  lemma FixedPart808(body: Bytes)
    requires LocationOf808(body).Some?
    ensures |body| >= 28
    ensures var r, status := LocationOf808(body).value, DWordAt(body, 4);
            && r.alarmFlag == DWordAt(body, 0) && r.status == status
            && r.latitude == (if status / 16 % 2 == 1 then -(DWordAt(body, 8) as int) else DWordAt(body, 8))
            && r.longitude == (if status / 32 % 2 == 1 then -(DWordAt(body, 12) as int) else DWordAt(body, 12))
            && r.altitude == WordAt(body, 16) && r.speed == WordAt(body, 18) && r.direction == WordAt(body, 20)
            && Some(r.timestamp) == DecodeTime(body[22..28])
            && Some(r.additional) == Run808(NOTHING, body[28..])
  {
    hide DWordAt, WordAt, DecodeTime, Run808;
    Refused808(body);
    assert Slice(body, 28, |body|) == body[28..];
  }

  /** As for the first parser, reordering or repeating items whose ids identify them changes nothing. */
  lemma ItemOrderIrrelevant808(before: Additional, a: seq<Item>, b: seq<Item>, tail: Bytes)
    requires Encodable(a) && Encodable(b) && Truncated(tail)
    requires Consistent(a) && forall item :: item in a <==> item in b
    ensures Run808(before, Items.Encode(a) + tail) == Run808(before, Items.Encode(b) + tail)
  {
    hide Run808, Last, Complete, Tail, Items.Encode;
    var x, y := Items.Encode(a) + tail, Items.Encode(b) + tail;
    CompleteEncode(a, tail);
    CompleteEncode(b, tail);
    forall id: Byte, length: Length
      ensures Last(a, id, length) == Last(b, id, length)
    {
      LastUnordered(a, b, id, length);
    }
    Run808Fails(before, x);
    Run808Fails(before, y);
    if Run808(before, x).Some? {
      RunIsLastWins(before, x, Run808(before, x).value);
      RunIsLastWins(before, y, Run808(before, x).value);
    }
  }
}
