/** Phone numbers and times as binary-coded decimal, two digits a byte. */
module Bcd {
  import opened Bytes

  // ---- Digits ----

  predicate IsHex(c: char) { '0' <= c <= '9' || 'a' <= c <= 'f' || 'A' <= c <= 'F' }

  predicate IsDigit(c: char) { '0' <= c <= '9' }

  predicate AllHex(s: string) { forall i :: 0 <= i < |s| ==> IsHex(s[i]) }

  predicate AllDigits(s: string) { forall i :: 0 <= i < |s| ==> IsDigit(s[i]) }

  function HexValue(c: char): (v: Byte)
    requires IsHex(c)
    ensures v < 16
  {
    if c <= '9' then c as int - 48
    else if c <= 'F' then c as int - 55
    else c as int - 87
  }

  /** One hexadecimal digit of the formats `02X` (upper) and `02x`. */
  function HexChar(v: nat, upper: bool): (c: char)
    requires v < 16
    ensures IsHex(c) && HexValue(c) == v
  {
    if v < 10 then (48 + v) as char
    else if upper then (55 + v) as char
    else (87 + v) as char
  }

  /** The digit as the two decoders would print it. */
  function Recase(s: string, upper: bool): (r: string)
    requires AllHex(s)
    ensures |r| == |s| && AllHex(r)
  {
    seq(|s|, i requires 0 <= i < |s| => HexChar(HexValue(s[i]), upper))
  }

  /** `s.zfill(width)` on a string without a sign */
  function ZFill(s: string, width: nat): (r: string)
    ensures |r| == if |s| < width then width else |s|
    ensures AllHex(s) ==> AllHex(r)
    ensures AllDigits(s) ==> AllDigits(r)
  {
    if |s| >= width then s else seq(width - |s|, _ => '0') + s
  }

  /** Zeros go on the left. */
  lemma ZFillPads(s: string, width: nat)
    ensures var r := ZFill(s, width);
            |r| >= |s| && r[|r| - |s|..] == s && forall i :: 0 <= i < |r| - |s| ==> r[i] == '0'
  {
  }

  // ---- Bytes and digits ----

  /** Every two digits of s become a byte; an odd last digit becomes a byte of its own. */
  function Pairs(s: string): (b: Bytes)
    requires AllHex(s)
    ensures |b| == (|s| + 1) / 2
  {
    if s == [] then []
    else if |s| == 1 then [HexValue(s[0])]
    else [HexValue(s[0]) * 16 + HexValue(s[1])] + Pairs(s[2..])
  }

  /** `''.join(f'{byte:02x}' for byte in b)`, or with `02X` */
  function Decode(b: Bytes, upper: bool): (s: string)
    ensures |s| == 2 * |b| && AllHex(s)
  {
    if b == [] then ""
    else [HexChar(b[0] / 16, upper), HexChar(b[0] % 16, upper)] + Decode(b[1..], upper)
  }

  /** jt808/protocol.py: padded on the left to 2 * length digits, never truncated */
  function Encode(s: string, length: nat): (b: Bytes)
    requires AllHex(s)
    ensures |s| <= 2 * length ==> |b| == length
  {
    Pairs(ZFill(s, 2 * length))
  }

  /** protocol/codec.py: padded to 12 digits and cut after the twelfth */
  function EncodePhone(phone: string): (b: Bytes)
    requires AllHex(phone)
    ensures |b| == 6
  {
    Pairs(ZFill(phone, 12)[..12])
  }

  lemma RecaseStep(s: string, upper: bool)
    requires |s| >= 2 && AllHex(s)
    ensures Recase(s, upper)
         == [HexChar(HexValue(s[0]), upper), HexChar(HexValue(s[1]), upper)] + Recase(s[2..], upper)
  {
  }

  lemma {:induction false} DecodePairs(s: string, upper: bool)
    requires AllHex(s) && |s| % 2 == 0
    ensures Decode(Pairs(s), upper) == Recase(s, upper)
  {
    hide HexChar, HexValue;
    if s == [] {
    } else {
      hide Recase;
      DecodePairs(s[2..], upper);
      RecaseStep(s, upper);
      var hi, lo := HexValue(s[0]), HexValue(s[1]);
      var b := Pairs(s);
      assert b[1..] == Pairs(s[2..]);
      assert b[0] / 16 == hi && b[0] % 16 == lo;
    }
  }

  /** The digits of the two formats, in the order of their values. */
  function Digits(upper: bool): string { if upper then "0123456789ABCDEF" else "0123456789abcdef" }

  lemma DigitTable(v: nat, upper: bool)
    requires v < 16
    ensures HexChar(v, upper) == Digits(upper)[v]
  {
  }

  /** Every byte is printed as its two hexadecimal digits, high before low, in the case of the format. */
  lemma {:induction false} DecodeDigits(b: Bytes, i: nat, upper: bool)
    requires i < |b|
    ensures Decode(b, upper)[2 * i] == Digits(upper)[b[i] / 16]
    ensures Decode(b, upper)[2 * i + 1] == Digits(upper)[b[i] % 16]
  {
    hide HexChar, Digits;
    DigitTable(b[0] / 16, upper);
    DigitTable(b[0] % 16, upper);
    if i > 0 {
      DecodeDigits(b[1..], i - 1, upper);
      assert Decode(b, upper)[2 * i] == Decode(b[1..], upper)[2 * (i - 1)];
      assert Decode(b, upper)[2 * i + 1] == Decode(b[1..], upper)[2 * (i - 1) + 1];
    }
  }

  lemma {:induction false} PairsDecode(b: Bytes, upper: bool)
    ensures Pairs(Decode(b, upper)) == b
  {
    if b != [] {
      PairsDecode(b[1..], upper);
      var s := Decode(b, upper);
      assert s[2..] == Decode(b[1..], upper);
      assert b == [b[0]] + b[1..];
    }
  }

  lemma RecaseDigits(s: string, upper: bool)
    requires AllDigits(s)
    ensures AllHex(s) && Recase(s, upper) == s
  {
  }

  /** A phone of at most 12 hexadecimal digits comes back padded to 12, in the decoder's case. */
  lemma PhoneRoundTrip(phone: string, upper: bool)
    requires AllHex(phone) && |phone| <= 12
    ensures Decode(EncodePhone(phone), upper) == Recase(ZFill(phone, 12), upper)
    ensures AllDigits(phone) ==> Decode(EncodePhone(phone), upper) == ZFill(phone, 12)
    ensures Encode(phone, 6) == EncodePhone(phone)
  {
    var s := ZFill(phone, 12);
    assert s[..12] == s;
    DecodePairs(s, upper);
    if AllDigits(phone) {
      RecaseDigits(s, upper);
    }
  }

  /** Beyond twelve digits one encoder cuts after the twelfth; the other keeps them all, two a byte. */
  lemma LongPhone(phone: string)
    requires AllHex(phone) && |phone| > 12
    ensures EncodePhone(phone) == EncodePhone(phone[..12])
    ensures |phone| % 2 == 0 ==> Decode(Encode(phone, 6), true) == Recase(phone, true)
    ensures |phone| % 2 == 1 ==> Encode(phone, 6) == Pairs(phone[..|phone| - 1]) + [HexValue(phone[|phone| - 1])]
  {
    assert ZFill(phone[..12], 12)[..12] == phone[..12];
    if |phone| % 2 == 0 {
      DecodePairs(phone, true);
    } else {
      OddPairs(phone);
    }
  }

  lemma {:induction false} OddPairs(s: string)
    requires AllHex(s) && |s| % 2 == 1
    ensures Pairs(s) == Pairs(s[..|s| - 1]) + [HexValue(s[|s| - 1])]
  {
    if |s| > 1 {
      OddPairs(s[2..]);
      assert s[..|s| - 1][2..] == s[2..][..|s| - 3];
    }
  }

  /** Every six-byte field survives being read as a phone and written back. */
  lemma FieldRoundTrip(field: Bytes, upper: bool)
    requires |field| == 6
    ensures EncodePhone(Decode(field, upper)) == field
    ensures Encode(Decode(field, upper), 6) == field
  {
    var s := Decode(field, upper);
    assert s[..12] == s;
    PairsDecode(field, upper);
  }

  // ---- Times ----

  /** A whole-second UTC time. */
  datatype DateTime = DateTime(year: nat, month: nat, day: nat, hour: nat, minute: nat, second: nat)

  predicate IsLeap(year: nat) { year % 4 == 0 && (year % 100 != 0 || year % 400 == 0) }

  function DaysIn(year: nat, month: nat): nat {
    if month == 2 then (if IsLeap(year) then 29 else 28)
    else if month == 4 || month == 6 || month == 9 || month == 11 then 30
    else 31
  }

  /** What the `datetime` constructor accepts. */
  predicate ValidTime(t: DateTime) {
    && 1 <= t.year <= 9999 && 1 <= t.month <= 12 && 1 <= t.day <= DaysIn(t.year, t.month)
    && t.hour < 24 && t.minute < 60 && t.second < 60
  }

  /** What a clock may say. */
  type Now = t: DateTime | ValidTime(t) witness DateTime(2000, 1, 1, 0, 0, 0)

  function TwoDigits(n: nat): (s: string)
    requires n < 100
    ensures |s| == 2 && AllDigits(s)
  {
    [HexChar(n / 10, true), HexChar(n % 10, true)]
  }

  /** `int(s)` for a string of letters and digits: None stands for ValueError. */
  function DecimalOf(s: string): Option<nat> {
    if s == "" || !AllDigits(s) then None else Some(DecimalValue(s))
  }

  function DecimalValue(s: string): nat
    requires AllDigits(s)
  {
    if s == "" then 0 else DecimalValue(s[..|s| - 1]) * 10 + HexValue(s[|s| - 1])
  }

  /** `strftime('%y%m%d%H%M%S')` */
  function TimeDigits(t: DateTime): (s: string)
    requires ValidTime(t)
    ensures |s| == 12 && AllDigits(s)
  {
    TwoDigits(t.year % 100) + TwoDigits(t.month) + TwoDigits(t.day)
    + TwoDigits(t.hour) + TwoDigits(t.minute) + TwoDigits(t.second)
  }

  function EncodeTime(t: DateTime): (b: Bytes)
    requires ValidTime(t)
    ensures |b| == 6
  {
    Encode(TimeDigits(t), 6)
  }

  /** The numbers of a field as a time of the century, if there are six and the `datetime` constructor accepts them. */
  function Moment(yy: Option<nat>, month: Option<nat>, day: Option<nat>,
                  hour: Option<nat>, minute: Option<nat>, second: Option<nat>): (r: Option<DateTime>)
    ensures r.Some? ==> ValidTime(r.value) && r.value.year >= 2000
  {
    if yy.None? || month.None? || day.None? || hour.None? || minute.None? || second.None? then None
    else
      var t := DateTime(yy.value + 2000, month.value, day.value, hour.value, minute.value, second.value);
      if ValidTime(t) then Some(t) else None
  }

  /** The six numbers of a field; a missing one is None. */
  function Fields(data: Bytes): (n: seq<Option<nat>>)
    ensures |n| == 6
  {
    var s := Decode(data, true);
    [DecimalOf(Slice(s, 0, 2)), DecimalOf(Slice(s, 2, 4)), DecimalOf(Slice(s, 4, 6)),
     DecimalOf(Slice(s, 6, 8)), DecimalOf(Slice(s, 8, 10)), DecimalOf(Slice(s, 10, 12))]
  }

  /** None stands for the ValueError of `int` or of the `datetime` constructor. */
  function DecodeTime(data: Bytes): (r: Option<DateTime>)
    ensures r.Some? ==> ValidTime(r.value) && r.value.year >= 2000
  {
    var n := Fields(data);
    Moment(n[0], n[1], n[2], n[3], n[4], n[5])
  }

  lemma DecimalOfTwoDigits(n: nat)
    requires n < 100
    ensures DecimalOf(TwoDigits(n)) == Some(n)
  {
    var s := TwoDigits(n);
    assert s[..1] == [s[0]];
    assert DecimalValue(s[..1]) == DecimalValue(s[..1][..0]) * 10 + HexValue(s[0]);
  }

  lemma TwoDigitsOfDecimal(s: string)
    requires |s| == 2 && AllDigits(s)
    ensures DecimalOf(s).Some? && DecimalOf(s).value < 100 && TwoDigits(DecimalOf(s).value) == s
  {
    assert s[..1] == [s[0]];
    assert DecimalValue(s[..1]) == DecimalValue(s[..1][..0]) * 10 + HexValue(s[0]);
    assert DecimalValue(s) == HexValue(s[0]) * 10 + HexValue(s[1]);
  }

  lemma DecodedDigits(t: DateTime)
    requires ValidTime(t)
    ensures Decode(EncodeTime(t), true) == TimeDigits(t)
  {
    DecodePairs(TimeDigits(t), true);
    RecaseDigits(TimeDigits(t), true);
  }

  lemma TimeDigitFields(t: DateTime)
    requires ValidTime(t)
    ensures var s := TimeDigits(t);
            && s[0..2] == TwoDigits(t.year % 100) && s[2..4] == TwoDigits(t.month)
            && s[4..6] == TwoDigits(t.day) && s[6..8] == TwoDigits(t.hour)
            && s[8..10] == TwoDigits(t.minute) && s[10..12] == TwoDigits(t.second)
  {
  }

  /** 29 February survives the change of century. */
  lemma LeapInCentury(year: nat)
    ensures IsLeap(year) ==> IsLeap(2000 + year % 100)
  {
    assert year == 100 * (year / 100) + year % 100;
  }

  /** The byte of a two-digit number. */
  function Packed(n: nat): Byte
    requires n < 100
  {
    n / 10 * 16 + n % 10
  }

  lemma EncodedDigits(t: DateTime)
    requires ValidTime(t)
    ensures EncodeTime(t) == Pairs(TimeDigits(t))
  {
    hide Pairs, TimeDigits;
  }

  lemma PairsOfTwoDigits(n: nat, rest: string)
    requires n < 100 && AllHex(rest)
    ensures AllHex(TwoDigits(n) + rest) && Pairs(TwoDigits(n) + rest) == [Packed(n)] + Pairs(rest)
  {
    var s := TwoDigits(n) + rest;
    assert s[2..] == rest && s[0] == TwoDigits(n)[0] && s[1] == TwoDigits(n)[1];
  }

  /** The bytes of an encoded time. */
  lemma EncodedBytes(t: DateTime)
    requires ValidTime(t)
    ensures EncodeTime(t) == [Packed(t.year % 100), Packed(t.month), Packed(t.day),
                              Packed(t.hour), Packed(t.minute), Packed(t.second)]
  {
    hide Pairs, TwoDigits, Packed, EncodeTime;
    EncodedDigits(t);
    var s5 := TwoDigits(t.second);
    var s4 := TwoDigits(t.minute) + s5;
    var s3 := TwoDigits(t.hour) + s4;
    var s2 := TwoDigits(t.day) + s3;
    var s1 := TwoDigits(t.month) + s2;
    PairsOfTwoDigits(t.second, "");
    assert s5 == s5 + "" && Pairs("") == [];
    PairsOfTwoDigits(t.minute, s5);
    PairsOfTwoDigits(t.hour, s4);
    PairsOfTwoDigits(t.day, s3);
    PairsOfTwoDigits(t.month, s2);
    PairsOfTwoDigits(t.year % 100, s1);
    assert TimeDigits(t) == TwoDigits(t.year % 100) + s1;
  }

  lemma ShiftedIsValid(t: DateTime)
    requires ValidTime(t)
    ensures ValidTime(t.(year := 2000 + t.year % 100))
  {
    hide IsLeap;
    LeapInCentury(t.year);
  }

  /** Every field of the printed time is read back as a number. */
  lemma FieldsDecode(t: DateTime)
    requires ValidTime(t)
    ensures var s := TimeDigits(t);
            && DecimalOf(Slice(s, 0, 2)) == Some(t.year % 100) && DecimalOf(Slice(s, 2, 4)) == Some(t.month)
            && DecimalOf(Slice(s, 4, 6)) == Some(t.day) && DecimalOf(Slice(s, 6, 8)) == Some(t.hour)
            && DecimalOf(Slice(s, 8, 10)) == Some(t.minute) && DecimalOf(Slice(s, 10, 12)) == Some(t.second)
  {
    hide DecimalOf, TimeDigits, TwoDigits;
    TimeDigitFields(t);
    DecimalOfTwoDigits(t.year % 100);
    DecimalOfTwoDigits(t.month);
    DecimalOfTwoDigits(t.day);
    DecimalOfTwoDigits(t.hour);
    DecimalOfTwoDigits(t.minute);
    DecimalOfTwoDigits(t.second);
  }

  /** The century is not sent: every valid time comes back in 2000-2099, so exactly those times survive. */
  lemma TimeRoundTrip(t: DateTime)
    requires ValidTime(t)
    ensures DecodeTime(EncodeTime(t)) == Some(t.(year := 2000 + t.year % 100))
    ensures DecodeTime(EncodeTime(t)) == Some(t) <==> 2000 <= t.year <= 2099
  {
    hide Decode, EncodeTime, TimeDigits, DecimalOf, ValidTime, Slice;
    DecodedDigits(t);
    FieldsDecode(t);
    ShiftedIsValid(t);
    YearInCentury(t.year);
  }

  lemma YearInCentury(year: nat)
    ensures 2000 + year % 100 == year <==> 2000 <= year <= 2099
  {
  }

  /** Conversely a field that decodes is the encoding of what it decodes to. */
  lemma TimeFieldRoundTrip(field: Bytes)
    requires |field| == 6 && DecodeTime(field).Some?
    ensures 2000 <= DecodeTime(field).value.year <= 2099
    ensures EncodeTime(DecodeTime(field).value) == field
  {
    hide DecimalValue, TwoDigits, Decode, Pairs, ValidTime;
    var s := Decode(field, true);
    var t := DecodeTime(field).value;
    TwoDigitsOfDecimal(s[0..2]);
    TwoDigitsOfDecimal(s[2..4]);
    TwoDigitsOfDecimal(s[4..6]);
    TwoDigitsOfDecimal(s[6..8]);
    TwoDigitsOfDecimal(s[8..10]);
    TwoDigitsOfDecimal(s[10..12]);
    assert s == s[0..2] + s[2..4] + s[4..6] + s[6..8] + s[8..10] + s[10..12];
    assert t.year % 100 == DecimalOf(s[0..2]).value;
    assert TimeDigits(t) == s;
    PairsDecode(field, true);
  }

  /** Both digits of the byte are decimal. */
  predicate IsDecimal(b: Byte) { b / 16 < 10 && b % 16 < 10 }

  /** The number that they stand for. */
  function Number(b: Byte): nat { b / 16 * 10 + b % 16 }

  function NumberOf(b: Byte): Option<nat> { if IsDecimal(b) then Some(Number(b)) else None }

  lemma PairAt(s: string, k: nat)
    requires k + 2 <= |s|
    ensures Slice(s, k, k + 2) == [s[k], s[k + 1]]
  {
  }

  /** The two digits of a byte. */
  function DigitsOf(b: Byte): string { [HexChar(b / 16, true), HexChar(b % 16, true)] }

  lemma ByteDigits(data: Bytes, i: nat, at: nat)
    requires i < |data| && at == 2 * i
    ensures Slice(Decode(data, true), at, at + 2) == DigitsOf(data[i])
  {
    hide Decode, Digits, HexChar, Slice;
    DecodeDigits(data, i, true);
    DigitTable(data[i] / 16, true);
    DigitTable(data[i] % 16, true);
    PairAt(Decode(data, true), at);
  }

  lemma DecimalOfByte(data: Bytes, i: nat, at: nat)
    requires i < |data| && at == 2 * i
    ensures DecimalOf(Slice(Decode(data, true), at, at + 2)) == NumberOf(data[i])
  {
    hide Decode, DecimalOf, Slice, DigitsOf, NumberOf;
    ByteDigits(data, i, at);
    NumberOfDigits(data[i]);
  }

  lemma NumberOfDigits(b: Byte)
    ensures DecimalOf(DigitsOf(b)) == NumberOf(b)
  {
    hide DecimalOf, HexChar;
    DecimalOfDigits(b / 16, b % 16);
  }

  lemma DecimalOfDigits(hi: nat, lo: nat)
    requires hi < 16 && lo < 16
    ensures var s := [HexChar(hi, true), HexChar(lo, true)];
            DecimalOf(s) == if hi < 10 && lo < 10 then Some(hi * 10 + lo) else None
  {
    var s := [HexChar(hi, true), HexChar(lo, true)];
    if hi < 10 && lo < 10 {
      assert AllDigits(s);
      assert s[..1] == [s[0]];
      assert DecimalValue(s[..1]) == DecimalValue(s[..1][..0]) * 10 + HexValue(s[0]);
      assert DecimalValue(s) == DecimalValue(s[..1]) * 10 + HexValue(s[1]);
    } else {
      assert !IsDigit(s[0]) || !IsDigit(s[1]);
    }
  }

  /** The days of a month of 2000-2099. */
  function MonthLength(year: nat, month: nat): nat
    requires 1 <= month <= 12
  {
    if year % 4 == 0 && month == 2 then 29 else [31, 28, 31, 30, 31, 30, 31, 31, 30, 31, 30, 31][month - 1]
  }

  /** The calendar and the clock: six numbers in the order of the field make a time of the century. */
  predicate OnCalendar(year: nat, month: nat, day: nat, hour: nat, minute: nat, second: nat) {
    && 1 <= month <= 12 && 1 <= day <= MonthLength(year, month)
    && hour <= 23 && minute <= 59 && second <= 59
  }

  lemma MomentExact(yy: nat, month: nat, day: nat, hour: nat, minute: nat, second: nat)
    requires yy < 100
    ensures Moment(Some(yy), Some(month), Some(day), Some(hour), Some(minute), Some(second))
         == if OnCalendar(2000 + yy, month, day, hour, minute, second)
            then Some(DateTime(2000 + yy, month, day, hour, minute, second)) else None
  {
  }

  predicate AllDecimal(field: Bytes) { forall i :: 0 <= i < |field| ==> IsDecimal(field[i]) }

  lemma FieldNumbers(field: Bytes)
    requires |field| == 6
    ensures var n := Fields(field);
            && n[0] == NumberOf(field[0]) && n[1] == NumberOf(field[1]) && n[2] == NumberOf(field[2])
            && n[3] == NumberOf(field[3]) && n[4] == NumberOf(field[4]) && n[5] == NumberOf(field[5])
  {
    hide Decode, DecimalOf, Slice, NumberOf;
    DecimalOfByte(field, 0, 0);
    DecimalOfByte(field, 1, 2);
    DecimalOfByte(field, 2, 4);
    DecimalOfByte(field, 3, 6);
    DecimalOfByte(field, 4, 8);
    DecimalOfByte(field, 5, 10);
  }

  /** Which fields decode, and to what: six decimal bytes that name a moment of 2000-2099. */
  lemma DecodableField(field: Bytes)
    requires |field| == 6
    ensures var year, month, day := 2000 + Number(field[0]), Number(field[1]), Number(field[2]);
            var hour, minute, second := Number(field[3]), Number(field[4]), Number(field[5]);
            DecodeTime(field)
            == if AllDecimal(field) && OnCalendar(year, month, day, hour, minute, second)
               then Some(DateTime(year, month, day, hour, minute, second)) else None
  {
    hide Decode, DecimalOf, Slice, ValidTime, OnCalendar, IsDecimal, Number, Moment;
    FieldNumbers(field);
    BelowHundred(field[0]);
    if AllDecimal(field) {
      MomentExact(Number(field[0]), Number(field[1]), Number(field[2]),
                  Number(field[3]), Number(field[4]), Number(field[5]));
    } else {
      MissingNumber(Fields(field));
    }
  }

  lemma MissingNumber(n: seq<Option<nat>>)
    requires |n| == 6 && None in n
    ensures Moment(n[0], n[1], n[2], n[3], n[4], n[5]) == None
  {
  }

  lemma BelowHundred(b: Byte)
    ensures IsDecimal(b) ==> Number(b) < 100
  {
  }

  /** A field shorter than six bytes never decodes. */
  lemma ShortTimeFieldFails(field: Bytes)
    requires |field| < 6
    ensures DecodeTime(field).None?
  {
    assert Slice(Decode(field, true), 10, 12) == "";
  }
}
