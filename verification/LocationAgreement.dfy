/** Where the two parsers of the location report agree. */
module LocationAgreement {
  import opened Bytes
  import opened Bcd
  import opened Items
  import opened Location
  import opened Location808

  predicate SameItems(r: Report, a: Additional) {
    && r.mileage == a.mileage && r.fuelLevel == a.fuel && r.canSpeed == a.speedCan
    && r.signalStrength == a.signalStrength && r.satellites == a.gnssSatellites
    && r.alarmStatus == a.customAlarmStatus && r.ecuIgnition == a.customEcuIgnition
  }

  // ---- One item ----

  /** Longer than the one length that the second parser accepts, while the first reads a prefix. */
  predicate Overlong(item: Item) {
    || (item.id == 0x01 && |item.data| > 4)
    || ((item.id == 0x02 || item.id == 0x03) && |item.data| > 2)
    || ((item.id == 0x30 || item.id == 0x31) && |item.data| > 1)
  }

  /** The field of an overlong item already holds what the first parser reads from it. */
  predicate AlreadyHeld(a: Additional, item: Item)
    requires Overlong(item)
  {
    match item.id
    case 0x01 => a.mileage == Some(DWordAt(item.data, 0))
    case 0x02 => a.fuel == Some(WordAt(item.data, 0))
    case 0x03 => a.speedCan == Some(WordAt(item.data, 0))
    case 0x30 => a.signalStrength == Some(item.data[0])
    case _ => a.gnssSatellites == Some(item.data[0])
  }

  /** Parsers that agree go on agreeing after a complete item exactly unless it is overlong and brings a new value. */
  lemma ItemAgreement(r: Report, a: Additional, item: Item)
    requires SameItems(r, a) && |item.data| < 256
    ensures var next := Apply808(a, item.id, |item.data|, item.data);
            && next.Some?
            && (SameItems(Apply(r, item), next.value) <==> Overlong(item) ==> AlreadyHeld(a, item))
  {
    hide Apply, Apply808;
    Applied808(a, item.id, |item.data|, item.data);
    if Overlong(item) {
      ItemDisagreement(r, a, item);
    } else {
      CanonicalItem(r, a, item);
    }
  }

  lemma CanonicalItem(r: Report, a: Additional, item: Item)
    requires SameItems(r, a) && !Overlong(item)
    requires Apply808(a, item.id, |item.data|, item.data).Some?
    ensures SameItems(Apply(r, item), Apply808(a, item.id, |item.data|, item.data).value)
  {
    hide WordAt, DWordAt;
    if KnownId(item.id) {
      KnownItem(r, a, item);
    }
  }

  lemma KnownItem(r: Report, a: Additional, item: Item)
    requires SameItems(r, a) && KnownId(item.id) && !Overlong(item)
    requires Apply808(a, item.id, |item.data|, item.data).Some?
    ensures SameItems(Apply(r, item), Apply808(a, item.id, |item.data|, item.data).value)
  {
    hide WordAt, DWordAt;
    match item.id {
      case 0x01 =>
      case 0x02 =>
      case 0x03 =>
      case 0x30 =>
      case 0x31 =>
      case _ =>
    }
  }

  /** An overlong item never reaches the second parser's record. */
  lemma ItemDisagreement(r: Report, a: Additional, item: Item)
    requires SameItems(r, a) && Overlong(item)
    ensures Apply808(a, item.id, |item.data|, item.data) == Some(a)
    ensures SameItems(Apply(r, item), a) <==> AlreadyHeld(a, item)
  {
    hide WordAt, DWordAt;
  }

  // ---- Whole bodies ----

  /** The last item that is long enough for a field begins with the last one of exactly its length. */
  predicate Covered(items: seq<Item>, id: Byte, len: nat) {
    match Last(items, id, AtLeast(len))
    case None => true
    case Some(data) => Last(items, id, Exactly(len)) == Some(data[..len])
  }

  /** A truncated last 0xEE item repeats what the last complete one says. */
  predicate CustomCovered(rest: Bytes) {
    match Last(Complete(rest), 0xEE, AtLeast(2))
    case None => CustomData(rest).None?
    case Some(data) => data[..2] == CustomData(rest).value[..2]
  }

  predicate AllCovered(rest: Bytes) {
    var items := Complete(rest);
    && Covered(items, 0x01, 4) && Covered(items, 0x02, 2) && Covered(items, 0x03, 2)
    && Covered(items, 0x30, 1) && Covered(items, 0x31, 1) && CustomCovered(rest)
  }

  lemma {:induction false} ExactIsLongEnough(items: seq<Item>, id: Byte, len: nat)
    ensures Last(items, id, Exactly(len)).Some? ==> Last(items, id, AtLeast(len)).Some?
  {
    if items != [] {
      ExactIsLongEnough(items[1..], id, len);
    }
  }

  lemma SameWordAt(a: Bytes, b: Bytes, at: nat)
    requires |a| >= at + 2 && |b| >= at + 2
    ensures WordAt(a, at) == WordAt(b, at) <==> a[at] == b[at] && a[at + 1] == b[at + 1]
  {
  }

  lemma SameWord(a: Bytes, b: Bytes)
    requires |a| >= 2 && |b| >= 2
    ensures WordAt(a, 0) == WordAt(b, 0) <==> a[..2] == b[..2]
  {
    hide WordAt;
    SameWordAt(a, b, 0);
    assert a[..2] == [a[0], a[1]] && b[..2] == [b[0], b[1]];
  }

  lemma SameDWord(a: Bytes, b: Bytes)
    requires |a| >= 4 && |b| >= 4
    ensures DWordAt(a, 0) == DWordAt(b, 0) <==> a[..4] == b[..4]
  {
    hide WordAt;
    SameWordAt(a, b, 0);
    SameWordAt(a, b, 2);
    assert a[..4] == [a[0], a[1], a[2], a[3]] && b[..4] == [b[0], b[1], b[2], b[3]];
  }

  lemma DWordCovered(items: seq<Item>, id: Byte)
    ensures DWordOf(Last(items, id, AtLeast(4)), None) == DWordOf(Last(items, id, Exactly(4)), None)
       <==> Covered(items, id, 4)
  {
    hide Last, DWordAt;
    ExactIsLongEnough(items, id, 4);
    var long, exact := Last(items, id, AtLeast(4)), Last(items, id, Exactly(4));
    if exact.Some? {
      SameDWord(long.value, exact.value);
      assert exact.value[..4] == exact.value;
    }
  }

  lemma WordCovered(items: seq<Item>, id: Byte)
    ensures WordOf(Last(items, id, AtLeast(2)), None) == WordOf(Last(items, id, Exactly(2)), None)
       <==> Covered(items, id, 2)
  {
    hide Last, WordAt;
    ExactIsLongEnough(items, id, 2);
    var long, exact := Last(items, id, AtLeast(2)), Last(items, id, Exactly(2));
    if exact.Some? {
      SameWord(long.value, exact.value);
      assert exact.value[..2] == exact.value;
    }
  }

  lemma ByteCovered(items: seq<Item>, id: Byte)
    ensures ByteOf(Last(items, id, AtLeast(1)), 0, None) == ByteOf(Last(items, id, Exactly(1)), 0, None)
       <==> Covered(items, id, 1)
  {
    hide Last;
    ExactIsLongEnough(items, id, 1);
    var long, exact := Last(items, id, AtLeast(1)), Last(items, id, Exactly(1));
    if long.Some? {
      assert long.value[..1] == [long.value[0]];
    }
    if exact.Some? {
      assert exact.value == [exact.value[0]];
    }
  }

  lemma BothBytesCovered(rest: Bytes)
    ensures var long, data := Last(Complete(rest), 0xEE, AtLeast(2)), CustomData(rest);
            (ByteOf(long, 0, None) == ByteOf(data, 0, None) && ByteOf(long, 1, None) == ByteOf(data, 1, None))
            <==> CustomCovered(rest)
  {
    hide Last, Complete;
    var long, data := Last(Complete(rest), 0xEE, AtLeast(2)), CustomData(rest);
    if long.Some? {
      assert long.value[..2] == [long.value[0], long.value[1]];
    }
    if data.Some? {
      assert data.value[..2] == [data.value[0], data.value[1]];
    }
  }

  /** Two loops that start without values end with the same ones exactly if every value is covered. */
  lemma LoopsAgree(r: Report, rest: Bytes)
    requires SameItems(r, NOTHING) && Run808(NOTHING, rest).Some?
    ensures SameItems(Fold(r, Complete(rest)), Run808(NOTHING, rest).value) <==> AllCovered(rest)
  {
    hide Fold, Run808, Last, Complete, CustomData, DWordOf, WordOf, ByteOf, Covered, CustomCovered;
    var items := Complete(rest);
    FoldTyped(r, items);
    RunIsLastWins(NOTHING, rest, Run808(NOTHING, rest).value);
    DWordCovered(items, 0x01);
    WordCovered(items, 0x02);
    WordCovered(items, 0x03);
    ByteCovered(items, 0x30);
    ByteCovered(items, 0x31);
    BothBytesCovered(rest);
  }

  predicate SameFixed(r: Report, s: Report808) {
    && r.alarmFlags == s.alarmFlag && r.status == s.status
    && r.altitude == s.altitude && r.speed == s.speed && r.direction == s.direction && r.time == s.timestamp
    && (r.latitude == s.latitude || r.latitude == -s.latitude)
    && (r.longitude == s.longitude || r.longitude == -s.longitude)
  }

  /**
   On every body: both parsers accept it and read the same raw item values exactly if its time
   is valid, it does not break off in a recognised item, and all values are covered.
   */
  lemma LocationParsersAgree(body: Bytes, now: DateTime)
    ensures var r, s := LocationOf(body, now), LocationOf808(body);
            (r.Some? && s.Some? && SameItems(r.value, s.value.additional))
            <==> (&& |body| >= 28 && DecodeTime(body[22..28]).Some?
                  && !BreaksOff(body[28..]) && AllCovered(body[28..]))
  {
    hide Run808, Fold, AllCovered, BreaksOff, SameItems;
    Refused808(body);
    if LocationOf(body, now).Some? && LocationOf808(body).Some? {
      Run808Fails(NOTHING, body[28..]);
      assert Slice(body, 28, |body|) == body[28..];
      BaseHasNothing(body, now);
      LoopsAgree(Base(body, now), body[28..]);
    }
  }

  lemma BaseHasNothing(body: Bytes, now: DateTime)
    requires |body| >= 28
    ensures SameItems(Base(body, now), NOTHING)
  {
  }

  /** The rest of the report is the same whenever both accept, but coordinates are signed by different status bits. */
  lemma FixedPartsAgree(body: Bytes, now: DateTime)
    requires |body| >= 28 && LocationOf808(body).Some?
    ensures var r, s := LocationOf(body, now).value, LocationOf808(body).value;
            && SameFixed(r, s)
            && (r.latitude == s.latitude <==> Bit(r.status, 2) == Bit(r.status, 4) || s.latitude == 0)
            && (r.longitude == s.longitude <==> Bit(r.status, 3) == Bit(r.status, 5) || s.longitude == 0)
  {
    hide Run808, Fold;
    FoldKeepsFixedPart(Base(body, now), Complete(body[28..]));
  }

  // ---- Items of canonical length ----

  ghost predicate NoneOverlong(items: seq<Item>) {
    forall i :: 0 <= i < |items| ==> !Overlong(items[i])
  }

  lemma {:induction false} CanonicalIsExact(items: seq<Item>, id: Byte, len: nat)
    requires forall i :: 0 <= i < |items| && items[i].id == id ==> |items[i].data| <= len
    ensures Last(items, id, AtLeast(len)) == Last(items, id, Exactly(len))
  {
    if items != [] {
      CanonicalIsExact(items[1..], id, len);
    }
  }

  /** Without overlong items, and unless the bytes end within an 0xEE item, every value is covered. */
  lemma CanonicalIsCovered(rest: Bytes)
    requires NoneOverlong(Complete(rest)) && (|Tail(rest)| >= 4 ==> Tail(rest)[0] != 0xEE)
    ensures AllCovered(rest)
  {
    hide Complete, Tail;
    var items := Complete(rest);
    CanonicalCovered(items, 0x01, 4);
    CanonicalCovered(items, 0x02, 2);
    CanonicalCovered(items, 0x03, 2);
    CanonicalCovered(items, 0x30, 1);
    CanonicalCovered(items, 0x31, 1);
  }

  lemma CanonicalCovered(items: seq<Item>, id: Byte, len: nat)
    requires forall i :: 0 <= i < |items| && items[i].id == id ==> |items[i].data| <= len
    ensures Covered(items, id, len)
  {
    hide Last;
    CanonicalIsExact(items, id, len);
    var data := Last(items, id, AtLeast(len));
    if data.Some? {
      assert data.value[..len] == data.value;
    }
  }

  /** One overlong item is enough: both parsers accept the body and read different values. */
  lemma SingleOverlongItem(fixed: Bytes, item: Item, now: DateTime)
    requires |fixed| == 28 && DecodeTime(fixed[22..28]).Some?
    requires Overlong(item) && |item.data| < 256
    ensures var body := BodyOf(fixed, [item], []);
            && LocationOf(body, now).Some? && LocationOf808(body).Some?
            && !SameItems(LocationOf(body, now).value, LocationOf808(body).value.additional)
  {
    hide LocationOf808, SameItems, Complete, Tail, Items.Encode, BodyOf;
    var body, rest := BodyOf(fixed, [item], []), Items.Encode([item]) + [];
    CompleteEncode([item], []);
    assert body[..28] == fixed && body[28..] == rest by {
      BodyParts(fixed, [item], []);
    }
    assert body[22..28] == fixed[22..28];
    LocationParsersAgree(body, now);
    Refused808(body);
    LastOfOne(item, AtLeast(if item.id == 0x01 then 4 else if item.id == 0x30 || item.id == 0x31 then 1 else 2));
    LastOfOne(item, Exactly(if item.id == 0x01 then 4 else if item.id == 0x30 || item.id == 0x31 then 1 else 2));
  }

  lemma BodyParts(fixed: Bytes, items: seq<Item>, tail: Bytes)
    requires |fixed| == 28 && Encodable(items)
    ensures var body := BodyOf(fixed, items, tail);
            |body| >= 28 && body[..28] == fixed && body[28..] == Items.Encode(items) + tail
  {
  }

  lemma LastOfOne(item: Item, length: Length)
    ensures Last([item], item.id, length) == if Fits(item.data, length) then Some(item.data) else None
  {
    assert [item][1..] == [];
  }
}
