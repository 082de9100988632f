/**
 protocol/parser.py: the location report 0x0200. Coordinates are signed micro-degrees;
 speeds, mileage and fuel are the raw tenths.
 */
module Location {
  import opened Bytes
  import opened Items
  import opened Bcd

  datatype Report = Report(
    alarmFlags: DWord, status: DWord, latitude: int, longitude: int,
    altitude: Word, speed: Word, direction: Word, time: DateTime,
    additional: map<Byte, Bytes>,
    mileage: Option<DWord>, fuelLevel: Option<Word>, canSpeed: Option<Word>,
    signalStrength: Option<Byte>, satellites: Option<Byte>,
    alarmStatus: Option<Byte>, ecuIgnition: Option<Byte>)

  /**
   `_bcd6_to_datetime`: the current time replaces one that is not valid. Twelve digits leave
   `strptime` no choice but two for every field, and the seconds 60 and 61 that its pattern
   admits are refused by the constructor.
   */
  function TimeOrNow(field: Bytes, now: DateTime): DateTime {
    match DecodeTime(field) case Some(t) => t case None => now
  }

  predicate Bit(status: DWord, k: nat)
    requires k < 8
  {
    status / [1, 2, 4, 8, 16, 32, 64, 128][k] % 2 == 1
  }

  function Signed(raw: int, negative: bool): int { if negative then -raw else raw }

  function Base(body: Bytes, now: DateTime): Report
    requires |body| >= 28
  {
    var status := DWordAt(body, 4);
    Report(DWordAt(body, 0), status,
           Signed(DWordAt(body, 8), Bit(status, 2)), Signed(DWordAt(body, 12), Bit(status, 3)),
           WordAt(body, 16), WordAt(body, 18), WordAt(body, 20), TimeOrNow(body[22..28], now),
           map[], None, None, None, None, None, None, None)
  }

  function Apply(report: Report, item: Item): Report {
    var r := report.(additional := report.additional[item.id := item.data]);
    if item.id == 0x01 && |item.data| >= 4 then r.(mileage := Some(DWordAt(item.data, 0)))
    else if item.id == 0x02 && |item.data| >= 2 then r.(fuelLevel := Some(WordAt(item.data, 0)))
    else if item.id == 0x03 && |item.data| >= 2 then r.(canSpeed := Some(WordAt(item.data, 0)))
    else if item.id == 0x30 && |item.data| >= 1 then r.(signalStrength := Some(item.data[0]))
    else if item.id == 0x31 && |item.data| >= 1 then r.(satellites := Some(item.data[0]))
    else if item.id == 0xEE && |item.data| >= 2 then
      r.(alarmStatus := Some(item.data[0]), ecuIgnition := Some(item.data[1]))
    else r
  }

  function Fold(report: Report, items: seq<Item>): Report
    decreases items
  {
    if items == [] then report else Fold(Apply(report, items[0]), items[1..])
  }

  /** None stands for the ValueError of a body that is too short. */
  function LocationOf(body: Bytes, now: DateTime): Option<Report> {
    if |body| < 28 then None else Some(Fold(Base(body, now), Complete(body[28..])))
  }

  method ParseLocationReport(body: Bytes, now: DateTime) returns (result: Option<Report>)
    ensures result == LocationOf(body, now)
  {
    if |body| < 28 {
      return None;
    }
    var report := ParseItems(Base(body, now), body);
    result := Some(report);
  }

  /** The loop over the additional items. */
  method ParseItems(base: Report, body: Bytes) returns (report: Report)
    requires |body| >= 28
    ensures report == Fold(base, Complete(body[28..]))
  {
    hide Fold, Complete, Apply;
    report := base;
    var offset := 28;
    while offset + 2 <= |body|
      invariant 28 <= offset <= |body|
      invariant Fold(report, Complete(body[offset..])) == Fold(base, Complete(body[28..]))
      decreases |body| - offset
    {
      LoopStep(report, body, offset);
      var infoId := body[offset];
      var infoLen: nat := body[offset + 1];
      offset := offset + 2;
      if offset + infoLen > |body| {
        FoldNothing(report);
        return;
      }
      var infoData := body[offset..offset + infoLen];
      report := ApplyItem(report, infoId, infoLen, infoData);
      offset := offset + infoLen;
    }
    FoldNothing(report);
    NothingComplete(body[offset..]);
  }

  lemma FoldNothing(report: Report)
    ensures Fold(report, []) == report
  {
  }

  lemma NothingComplete(rest: Bytes)
    requires |rest| < 2
    ensures Complete(rest) == []
  {
  }

  lemma LoopStep(report: Report, body: Bytes, offset: nat)
    requires offset + 2 <= |body|
    ensures var at, n: nat := offset + 2, body[offset + 1];
            && (at + n > |body| ==> Complete(body[offset..]) == [])
            && (at + n <= |body| ==>
                  Fold(report, Complete(body[offset..]))
                  == Fold(Apply(report, Item(body[offset], body[at..at + n])), Complete(body[at + n..])))
  {
    var rest := body[offset..];
    if !Truncated(rest) {
      NextItem(report, rest);
      assert First(rest).data == body[offset + 2..offset + 2 + Declared(rest)];
      assert After(rest) == body[offset + 2 + Declared(rest)..];
    }
  }

  /** The body of the loop for one complete item. */
  method ApplyItem(before: Report, infoId: Byte, infoLen: nat, infoData: Bytes) returns (report: Report)
    requires |infoData| == infoLen
    ensures report == Apply(before, Item(infoId, infoData))
  {
    report := before.(additional := before.additional[infoId := infoData]);
    if infoId == 0x01 && infoLen >= 4 {
      report := report.(mileage := Some(DWordAt(infoData, 0)));
    } else if infoId == 0x02 && infoLen >= 2 {
      report := report.(fuelLevel := Some(WordAt(infoData, 0)));
    } else if infoId == 0x03 && infoLen >= 2 {
      report := report.(canSpeed := Some(WordAt(infoData, 0)));
    } else if infoId == 0x30 && infoLen >= 1 {
      report := report.(signalStrength := Some(infoData[0]));
    } else if infoId == 0x31 && infoLen >= 1 {
      report := report.(satellites := Some(infoData[0]));
    } else if infoId == 0xEE && infoLen >= 2 {
      report := report.(alarmStatus := Some(infoData[0]), ecuIgnition := Some(infoData[1]));
    }
  }

  lemma NextItem(report: Report, rest: Bytes)
    requires !Truncated(rest)
    ensures Fold(report, Complete(rest)) == Fold(Apply(report, First(rest)), Complete(After(rest)))
  {
    assert Complete(rest)[1..] == Complete(After(rest));
  }

  function DWordOf(data: Option<Bytes>, otherwise: Option<DWord>): Option<DWord>
    requires data.Some? ==> |data.value| >= 4
  {
    match data case Some(d) => Some(DWordAt(d, 0)) case None => otherwise
  }

  function WordOf(data: Option<Bytes>, otherwise: Option<Word>): Option<Word>
    requires data.Some? ==> |data.value| >= 2
  {
    match data case Some(d) => Some(WordAt(d, 0)) case None => otherwise
  }

  function ByteOf(data: Option<Bytes>, k: nat, otherwise: Option<Byte>): Option<Byte>
    requires data.Some? ==> |data.value| > k
  {
    match data case Some(d) => Some(d[k]) case None => otherwise
  }

  /** Every typed field holds the last item of its id that is long enough for it. */
  predicate TypedLastWins(before: Report, items: seq<Item>, after: Report) {
    && after.mileage == DWordOf(Last(items, 0x01, AtLeast(4)), before.mileage)
    && after.fuelLevel == WordOf(Last(items, 0x02, AtLeast(2)), before.fuelLevel)
    && after.canSpeed == WordOf(Last(items, 0x03, AtLeast(2)), before.canSpeed)
    && after.signalStrength == ByteOf(Last(items, 0x30, AtLeast(1)), 0, before.signalStrength)
    && after.satellites == ByteOf(Last(items, 0x31, AtLeast(1)), 0, before.satellites)
    && after.alarmStatus == ByteOf(Last(items, 0xEE, AtLeast(2)), 0, before.alarmStatus)
    && after.ecuIgnition == ByteOf(Last(items, 0xEE, AtLeast(2)), 1, before.ecuIgnition)
  }

  /** The dictionary holds the last item of every id. */
  ghost predicate DictionaryLastWins(before: map<Byte, Bytes>, items: seq<Item>, after: map<Byte, Bytes>) {
    forall id: Byte ::
      && (id in after <==> id in before || Last(items, id, AtLeast(0)).Some?)
      && (id in after ==>
            after[id] == match Last(items, id, AtLeast(0))
                         case Some(d) => d
                         case None => if id in before then before[id] else [])
  }

  predicate SameFixedPart(a: Report, b: Report) {
    && a.alarmFlags == b.alarmFlags && a.status == b.status && a.latitude == b.latitude && a.longitude == b.longitude
    && a.altitude == b.altitude && a.speed == b.speed && a.direction == b.direction && a.time == b.time
  }

  lemma {:induction false} FoldTyped(report: Report, items: seq<Item>)
    ensures TypedLastWins(report, items, Fold(report, items))
    decreases items
  {
    if items != [] {
      FoldTyped(Apply(report, items[0]), items[1..]);
    }
  }

  lemma {:induction false} FoldDictionary(report: Report, items: seq<Item>)
    ensures DictionaryLastWins(report.additional, items, Fold(report, items).additional)
    decreases items
  {
    if items != [] {
      FoldDictionary(Apply(report, items[0]), items[1..]);
      assert Apply(report, items[0]).additional == report.additional[items[0].id := items[0].data];
    }
  }

  lemma {:induction false} FoldKeepsFixedPart(report: Report, items: seq<Item>)
    ensures SameFixedPart(report, Fold(report, items))
    decreases items
  {
    if items != [] {
      FoldKeepsFixedPart(Apply(report, items[0]), items[1..]);
    }
  }

  /** The three statements leave no freedom: the fold is the only report of which they hold. */
  lemma FoldIsLastWins(before: Report, items: seq<Item>, after: Report)
    ensures after == Fold(before, items) <==>
            && TypedLastWins(before, items, after)
            && DictionaryLastWins(before.additional, items, after.additional)
            && SameFixedPart(before, after)
  {
    FoldTyped(before, items);
    FoldDictionary(before, items);
    FoldKeepsFixedPart(before, items);
    if DictionaryLastWins(before.additional, items, after.additional) {
      assert forall id: Byte :: id in after.additional <==> id in Fold(before, items).additional;
      assert after.additional == Fold(before, items).additional;
    }
  }

  /** Where the fixed part lies, and which status bits make the coordinates negative: 2 is south and 3 is west. */
  lemma FixedPart(body: Bytes, now: DateTime)
    requires |body| >= 28
    ensures LocationOf(body, now).Some?
    ensures var r, status := LocationOf(body, now).value, DWordAt(body, 4);
            && r.alarmFlags == DWordAt(body, 0) && r.status == status
            && r.latitude == (if status / 4 % 2 == 1 then -(DWordAt(body, 8) as int) else DWordAt(body, 8))
            && r.longitude == (if status / 8 % 2 == 1 then -(DWordAt(body, 12) as int) else DWordAt(body, 12))
            && r.altitude == WordAt(body, 16) && r.speed == WordAt(body, 18) && r.direction == WordAt(body, 20)
            && (DecodeTime(body[22..28]).Some? ==> Some(r.time) == DecodeTime(body[22..28]))
            && (DecodeTime(body[22..28]).None? ==> r.time == now)
  {
    hide DWordAt, WordAt, DecodeTime, Fold;
    FoldKeepsFixedPart(Base(body, now), Complete(body[28..]));
  }

  /** A body made of a fixed part, encoded items and a truncated rest. */
  ghost function BodyOf(fixed: Bytes, items: seq<Item>, tail: Bytes): Bytes
    requires Encodable(items)
  {
    fixed + Items.Encode(items) + tail
  }

  /** Exactly the complete items count: a truncated trailing item is ignored. */
  lemma ParseEncoded(fixed: Bytes, items: seq<Item>, tail: Bytes, now: DateTime)
    requires |fixed| == 28 && Encodable(items) && Truncated(tail)
    ensures LocationOf(BodyOf(fixed, items, tail), now) == Some(Fold(Base(fixed, now), items))
  {
    var body := BodyOf(fixed, items, tail);
    assert body[28..] == Items.Encode(items) + tail;
    CompleteEncode(items, tail);
    SameBase(fixed, body, now);
  }

  lemma SameBase(fixed: Bytes, body: Bytes, now: DateTime)
    requires |fixed| == 28 && fixed <= body
    ensures Base(body, now) == Base(fixed, now)
  {
    assert body[22..28] == fixed[22..28];
  }

  /** Reordering or repeating items whose ids identify them changes nothing. */
  lemma ItemOrderIrrelevant(fixed: Bytes, a: seq<Item>, b: seq<Item>, tail: Bytes, now: DateTime)
    requires |fixed| == 28 && Encodable(a) && Encodable(b) && Truncated(tail)
    requires Consistent(a) && forall item :: item in a <==> item in b
    ensures LocationOf(BodyOf(fixed, a, tail), now) == LocationOf(BodyOf(fixed, b, tail), now)
  {
    ParseEncoded(fixed, a, tail, now);
    ParseEncoded(fixed, b, tail, now);
    SameFold(Base(fixed, now), a, b);
  }

  lemma SameFold(report: Report, a: seq<Item>, b: seq<Item>)
    requires Consistent(a) && forall item :: item in a <==> item in b
    ensures Fold(report, a) == Fold(report, b)
  {
    forall id: Byte, length: Length
      ensures Last(a, id, length) == Last(b, id, length)
    {
      LastUnordered(a, b, id, length);
    }
    FoldTyped(report, b);
    FoldDictionary(report, b);
    FoldKeepsFixedPart(report, b);
    FoldIsLastWins(report, a, Fold(report, b));
  }

  predicate KnownId(id: Byte) {
    id == 0x01 || id == 0x02 || id == 0x03 || id == 0x30 || id == 0x31 || id == 0xEE
  }

  function KnownOnly(items: seq<Item>): seq<Item> {
    if items == [] then []
    else (if KnownId(items[0].id) then [items[0]] else []) + KnownOnly(items[1..])
  }

  /** The typed part of a report, without the dictionary of raw items. */
  function Typed(r: Report): Report { r.(additional := map[]) }

  lemma {:induction false} KnownLast(items: seq<Item>, id: Byte, length: Length)
    requires KnownId(id)
    ensures Last(KnownOnly(items), id, length) == Last(items, id, length)
  {
    if items != [] {
      KnownLast(items[1..], id, length);
      if KnownId(items[0].id) {
        assert KnownOnly(items)[1..] == KnownOnly(items[1..]);
      } else {
        assert KnownOnly(items) == KnownOnly(items[1..]);
      }
    }
  }

  /** Unknown items, wherever they stand, reach the dictionary only. */
  lemma UnknownItemsIgnored(report: Report, items: seq<Item>)
    ensures Typed(Fold(report, items)) == Typed(Fold(report, KnownOnly(items)))
  {
    FoldTyped(report, items);
    FoldTyped(report, KnownOnly(items));
    FoldKeepsFixedPart(report, items);
    FoldKeepsFixedPart(report, KnownOnly(items));
    KnownLast(items, 0x01, AtLeast(4));
    KnownLast(items, 0x02, AtLeast(2));
    KnownLast(items, 0x03, AtLeast(2));
    KnownLast(items, 0x30, AtLeast(1));
    KnownLast(items, 0x31, AtLeast(1));
    KnownLast(items, 0xEE, AtLeast(2));
  }
}
