/** Byte stuffing: 0x7E travels as 0x7D 0x02 and 0x7D as 0x7D 0x01. */
module Stuffing {
  import opened Bytes

  const FLAG: Byte := 0x7E
  const ESC: Byte := 0x7D

  function EscapeByte(b: Byte): Bytes {
    if b == FLAG then [ESC, 0x02]
    else if b == ESC then [ESC, 0x01]
    else [b]
  }

  function Escape(data: Bytes): Bytes {
    if data == [] then [] else EscapeByte(data[0]) + Escape(data[1..])
  }

  /** How many bytes the decoder consumes at the head of the data. */
  function UnitWidth(data: Bytes): (n: nat)
    requires data != []
    ensures 1 <= n <= |data|
  {
    if data[0] == ESC && |data| > 1 then 2 else 1
  }

  /** What those bytes decode to: an ESC at the end or before any other byte is kept, with that byte. */
  function DecodeUnit(data: Bytes): Bytes
    requires data != []
  {
    if data[0] == ESC && |data| > 1 then
      if data[1] == 0x02 then [FLAG]
      else if data[1] == 0x01 then [ESC]
      else [ESC, data[1]]
    else [data[0]]
  }

  function Unescape(data: Bytes): Bytes {
    if data == [] then [] else DecodeUnit(data) + Unescape(data[UnitWidth(data)..])
  }

  method EscapeBytes(data: Bytes) returns (result: Bytes)
    ensures result == Escape(data)
  {
    result := [];
    for i := 0 to |data|
      invariant result + Escape(data[i..]) == Escape(data)
    {
      EscapeHead(result, data, i);
      var b := data[i];
      if b == FLAG {
        result := result + [ESC, 0x02];
      } else if b == ESC {
        result := result + [ESC, 0x01];
      } else {
        result := result + [b];
      }
    }
  }

  lemma EscapeHead(done: Bytes, data: Bytes, i: nat)
    requires i < |data|
    ensures done + Escape(data[i..]) == done + EscapeByte(data[i]) + Escape(data[i + 1..])
  {
    assert data[i..][1..] == data[i + 1..];
  }

  method UnescapeBytes(data: Bytes) returns (result: Bytes)
    ensures result == Unescape(data)
  {
    result := [];
    var i := 0;
    while i < |data|
      invariant 0 <= i <= |data|
      invariant result + Unescape(data[i..]) == Unescape(data)
    {
      UnescapeHead(result, data, i);
      if data[i] == ESC && i + 1 < |data| {
        var next := data[i + 1];
        if next == 0x02 {
          result := result + [FLAG];
        } else if next == 0x01 {
          result := result + [ESC];
        } else {
          result := result + [ESC, next];
        }
        i := i + 2;
      } else {
        result := result + [data[i]];
        i := i + 1;
      }
    }
  }

  lemma UnescapeHead(done: Bytes, data: Bytes, i: nat)
    requires i < |data|
    ensures var rest := data[i..];
            && UnitWidth(rest) == (if data[i] == ESC && i + 1 < |data| then 2 else 1)
            && done + Unescape(rest) == done + DecodeUnit(rest) + Unescape(data[i + UnitWidth(rest)..])
  {
    var rest := data[i..];
    assert rest[UnitWidth(rest)..] == data[i + UnitWidth(rest)..];
    ConcatAssociates(done, DecodeUnit(rest), Unescape(rest[UnitWidth(rest)..]));
  }

  /** The wire codes: what each byte is stuffed to. */
  lemma StuffingCodes(data: Bytes)
    ensures Escape([0x7E] + data) == [0x7D, 0x02] + Escape(data)
    ensures Escape([0x7D] + data) == [0x7D, 0x01] + Escape(data)
    ensures forall b: Byte :: b != 0x7E && b != 0x7D ==> Escape([b] + data) == [b] + Escape(data)
  {
    forall b: Byte
      ensures Escape([b] + data) == EscapeByte(b) + Escape(data)
    {
      assert ([b] + data)[1..] == data;
    }
  }

  /** What each sequence decodes to: an escape before any other byte, or at the end, is kept. */
  lemma DecodingCodes(w: Bytes)
    ensures Unescape([0x7D, 0x02] + w) == [0x7E] + Unescape(w)
    ensures Unescape([0x7D, 0x01] + w) == [0x7D] + Unescape(w)
    ensures forall x: Byte :: x != 0x01 && x != 0x02 ==> Unescape([0x7D, x] + w) == [0x7D, x] + Unescape(w)
    ensures forall x: Byte :: x != 0x7D ==> Unescape([x] + w) == [x] + Unescape(w)
    ensures Unescape([0x7D]) == [0x7D]
  {
    hide Unescape, DecodeUnit, UnitWidth;
    DecodePair(0x02, w);
    DecodePair(0x01, w);
    forall x: Byte
      ensures x != 0x01 && x != 0x02 ==> Unescape([0x7D, x] + w) == [0x7D, x] + Unescape(w)
      ensures x != 0x7D ==> Unescape([x] + w) == [x] + Unescape(w)
    {
      DecodePair(x, w);
      if x != 0x7D {
        DecodePlain(x, w);
      }
    }
    LoneEscape();
  }

  lemma DecodePair(x: Byte, w: Bytes)
    ensures Unescape([0x7D, x] + w) == DecodeUnit([0x7D, x]) + Unescape(w)
    ensures DecodeUnit([0x7D, x]) == if x == 0x02 then [0x7E] else if x == 0x01 then [0x7D] else [0x7D, x]
  {
    assert ([0x7D, x] + w)[2..] == w;
  }

  lemma DecodePlain(x: Byte, w: Bytes)
    requires x != 0x7D
    ensures Unescape([x] + w) == [x] + Unescape(w)
  {
    assert ([x] + w)[1..] == w;
  }

  lemma LoneEscape()
    ensures Unescape([0x7D]) == [0x7D]
  {
    assert Unescape([0x7D][1..]) == [];
  }

  /** How many bytes of the data are doubled. */
  function CountSpecial(data: Bytes): nat {
    if data == [] then 0
    else (if data[0] == FLAG || data[0] == ESC then 1 else 0) + CountSpecial(data[1..])
  }

  lemma {:induction false} EscapeConcat(a: Bytes, b: Bytes)
    ensures Escape(a + b) == Escape(a) + Escape(b)
  {
    if a == [] {
      assert a + b == b;
    } else {
      assert (a + b)[1..] == a[1..] + b;
      EscapeConcat(a[1..], b);
    }
  }

  lemma {:induction false} EscapeOutput(data: Bytes)
    ensures FLAG !in Escape(data)
    ensures |Escape(data)| == |data| + CountSpecial(data)
  {
    if data != [] {
      EscapeOutput(data[1..]);
    }
  }

  lemma UnescapeByte(b: Byte, w: Bytes)
    ensures Unescape(EscapeByte(b) + w) == [b] + Unescape(w)
  {
    var head := EscapeByte(b);
    var whole := head + w;
    assert whole[|head|..] == w;
    assert UnitWidth(whole) == |head| && DecodeUnit(whole) == [b];
  }

  /** Escaped data in front of anything is decoded on its own. */
  lemma {:induction false} UnescapeEscape(data: Bytes, w: Bytes)
    ensures Unescape(Escape(data) + w) == data + Unescape(w)
  {
    if data == [] {
      assert Escape(data) + w == w;
    } else {
      var rest := data[1..];
      UnescapeEscape(rest, w);
      UnescapeByte(data[0], Escape(rest) + w);
      ConcatAssociates(EscapeByte(data[0]), Escape(rest), w);
      ConcatAssociates([data[0]], rest, Unescape(w));
      assert data == [data[0]] + rest;
    }
  }

  /** What the sender stuffs contains no flag and is exactly what the receiver decodes. */
  lemma StuffingRoundTrip(data: Bytes)
    ensures Unescape(Escape(data)) == data
    ensures FLAG !in Escape(data)
    ensures |Escape(data)| >= |data|
  {
    EscapeOutput(data);
    UnescapeEscape(data, []);
    assert Escape(data) + [] == Escape(data) && data + Unescape([]) == data;
  }

  lemma EscapeInjective(a: Bytes, b: Bytes)
    requires Escape(a) == Escape(b)
    ensures a == b
  {
    StuffingRoundTrip(a);
    StuffingRoundTrip(b);
  }

  predicate StuffedAt(w: Bytes, i: nat)
    requires i < |w|
  {
    w[i] != FLAG && (w[i] == ESC ==> i + 1 < |w| && (w[i + 1] == 0x01 || w[i + 1] == 0x02))
  }

  /** The language of correctly stuffed strings. */
  ghost predicate WellStuffed(w: Bytes) {
    forall i :: 0 <= i < |w| ==> StuffedAt(w, i)
  }

  lemma {:induction false} EscapeWellStuffed(data: Bytes)
    ensures WellStuffed(Escape(data))
  {
    if data != [] {
      var head, rest := EscapeByte(data[0]), Escape(data[1..]);
      EscapeWellStuffed(data[1..]);
      forall i | 0 <= i < |head + rest|
        ensures StuffedAt(head + rest, i)
      {
        if i >= |head| {
          assert StuffedAt(rest, i - |head|);
        }
      }
    }
  }

  lemma {:induction false} WellStuffedReEscapes(w: Bytes)
    requires WellStuffed(w)
    ensures Escape(Unescape(w)) == w
  {
    if w == [] {
    } else {
      assert StuffedAt(w, 0);
      forall i | 0 <= i < |w[UnitWidth(w)..]|
        ensures StuffedAt(w[UnitWidth(w)..], i)
      {
        assert StuffedAt(w, i + UnitWidth(w));
      }
      var k, unit := UnitWidth(w), DecodeUnit(w);
      WellStuffedReEscapes(w[k..]);
      EscapeConcat(unit, Unescape(w[k..]));
      assert |unit| == 1 && unit == [unit[0]];
      assert Escape(unit) == EscapeByte(unit[0]) + Escape([]);
      assert w == w[..k] + w[k..];
    }
  }

  /** Decoding loses nothing exactly on the correctly stuffed strings, which are what escape produces. */
  lemma StuffedLanguage(w: Bytes)
    ensures Escape(Unescape(w)) == w <==> WellStuffed(w)
    ensures (exists data :: Escape(data) == w) <==> WellStuffed(w)
  {
    EscapeWellStuffed(Unescape(w));
    if WellStuffed(w) {
      WellStuffedReEscapes(w);
    }
    forall data | Escape(data) == w
      ensures WellStuffed(w)
    {
      EscapeWellStuffed(data);
    }
  }
}
