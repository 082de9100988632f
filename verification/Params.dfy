/** Terminal parameters: the body of 0x8103 and the loop that reads 0x0104. */
module Params {
  import opened Bytes
  import opened Checksum
  import Bcd
  import MessageCodec

  const MSG_SET_PARAMS: Word := 0x8103
  const MSG_QUERY_PARAMS: Word := 0x8106

  /** One entry of the parameter dictionary. */
  datatype Param = Param(id: DWord, value: Bytes)

  /** A dictionary in its insertion order, within what the one-byte counters can express. */
  ghost predicate Encodable(params: seq<Param>) {
    |params| < 256 && forall i :: 0 <= i < |params| ==> |params[i].value| < 256
  }

  ghost predicate DistinctIds(params: seq<Param>) {
    forall i, j :: 0 <= i < j < |params| ==> params[i].id != params[j].id
  }

  function EncodeParam(p: Param): Bytes
    requires |p.value| < 256
  {
    PackDWord(p.id) + [|p.value|] + p.value
  }

  ghost function EncodeAll(params: seq<Param>): Bytes
    requires forall i :: 0 <= i < |params| ==> |params[i].value| < 256
  {
    if params == [] then [] else EncodeParam(params[0]) + EncodeAll(params[1..])
  }

  ghost function SetBody(params: seq<Param>): Bytes
    requires Encodable(params)
  {
    [|params|] + EncodeAll(params)
  }

  method BuildSetParams(phone: string, serialNo: Word, params: seq<Param>) returns (raw: Bytes)
    requires Bcd.AllHex(phone) && Encodable(params)
    ensures raw == MessageCodec.BuildMessage(0x8103, phone, serialNo, SetBody(params))
  {
    var body: Bytes := [|params|];
    for i := 0 to |params|
      invariant body + EncodeAll(params[i..]) == SetBody(params)
    {
      EncodeHead(body, params, i);
      body := body + (PackDWord(params[i].id) + [|params[i].value|] + params[i].value);
    }
    assert body + [] == body;
    raw := MessageCodec.BuildMessage(MSG_SET_PARAMS, phone, serialNo, body);
  }

  lemma EncodeHead(done: Bytes, params: seq<Param>, i: nat)
    requires Encodable(params) && i < |params|
    ensures done + EncodeAll(params[i..]) == done + EncodeParam(params[i]) + EncodeAll(params[i + 1..])
  {
    assert params[i..][1..] == params[i + 1..];
    ConcatAssociates(done, EncodeParam(params[i]), EncodeAll(params[i + 1..]));
  }

  function PackAll(ids: seq<DWord>): Bytes {
    if ids == [] then [] else PackDWord(ids[0]) + PackAll(ids[1..])
  }

  function QueryBody(ids: seq<DWord>): Bytes
    requires |ids| < 256
  {
    [|ids|] + PackAll(ids)
  }

  /** What `bytes` and `struct.pack` accept: a count of one byte and identifiers of 32 bits. */
  predicate Packable(ids: seq<int>) {
    |ids| < 256 && forall i :: 0 <= i < |ids| ==> 0 <= ids[i] < 0x1_0000_0000
  }

  /** None stands for the ValueError or struct.error of identifiers that cannot be packed. */
  method BuildQueryParams(phone: string, serialNo: Word, ids: seq<int>) returns (raw: Option<Bytes>)
    requires Bcd.AllHex(phone)
    ensures raw == if Packable(ids)
                   then Some(MessageCodec.BuildMessage(0x8106, phone, serialNo, QueryBody(ids)))
                   else None
  {
    hide PackDWord;
    if |ids| > 255 {
      return None;
    }
    var body: Bytes := [|ids|];
    for i := 0 to |ids|
      invariant Packable(ids[..i])
      invariant body == [|ids|] + PackAll(ids[..i])
    {
      if ids[i] < 0 || ids[i] >= 0x1_0000_0000 {
        return None;
      }
      PackOneMore(ids, i);
      ConcatAssociates([|ids|], PackAll(ids[..i]), PackDWord(ids[i]));
      body := body + PackDWord(ids[i]);
    }
    assert ids[..|ids|] == ids;
    raw := Some(MessageCodec.BuildMessage(MSG_QUERY_PARAMS, phone, serialNo, body));
  }

  lemma PackOneMore(ids: seq<int>, i: nat)
    requires i < |ids| < 256 && Packable(ids[..i + 1])
    ensures Packable(ids[..i]) && PackAll(ids[..i + 1]) == PackAll(ids[..i]) + PackDWord(ids[i])
  {
    assert forall j :: 0 <= j < i ==> ids[..i][j] == ids[..i + 1][j];
    PackLast(ids[..i + 1]);
    assert ids[..i + 1][..i] == ids[..i];
  }

  lemma {:induction false} PackLast(ids: seq<DWord>)
    requires ids != []
    ensures PackAll(ids) == PackAll(ids[..|ids| - 1]) + PackDWord(ids[|ids| - 1])
  {
    hide PackDWord;
    if |ids| > 1 {
      var rest := ids[1..];
      PackLast(rest);
      assert ids[..|ids| - 1][1..] == rest[..|rest| - 1];
    } else {
      assert PackAll(ids[1..]) == [] == PackAll(ids[..0]);
    }
  }

  lemma {:induction false} PackedWords(ids: seq<DWord>, i: nat)
    requires i < |ids|
    ensures |PackAll(ids)| == 4 * |ids| && DWordAt(PackAll(ids), 4 * i) == ids[i]
  {
    var rest := PackAll(ids[1..]);
    if |ids| > 1 {
      PackedWords(ids[1..], if i == 0 then 0 else i - 1);
    }
    DWordRoundTrip([], ids[0], rest);
    assert [] + PackDWord(ids[0]) + rest == PackAll(ids);
    if i > 0 {
      SameWords(PackDWord(ids[0]), rest, 4 * (i - 1));
    }
  }

  /** The body of a query: one byte of count and then the identifiers as words, in order. */
  lemma QueryBodyLists(ids: seq<DWord>, i: nat)
    requires |ids| < 256 && i < |ids|
    ensures |QueryBody(ids)| == 1 + 4 * |ids| && QueryBody(ids)[0] == |ids|
    ensures DWordAt(QueryBody(ids), 1 + 4 * i) == ids[i]
  {
    hide PackAll;
    PackedWords(ids, i);
    AfterCount(|ids|, PackAll(ids), 4 * i);
  }

  lemma AfterCount(count: Byte, rest: Bytes, at: nat)
    requires at + 4 <= |rest|
    ensures DWordAt([count] + rest, 1 + at) == DWordAt(rest, at)
  {
  }

  lemma SameWords(head: Bytes, rest: Bytes, at: nat)
    requires |head| == 4 && at + 4 <= |rest|
    ensures DWordAt(head + rest, 4 + at) == DWordAt(rest, at)
  {
  }

  /** The rest of the reading loop: the last value may be cut short, and a later entry replaces an earlier one. */
  function ReadFrom(m: map<DWord, Bytes>, rest: Bytes): map<DWord, Bytes>
    decreases |rest|
  {
    if |rest| < 5 then m
    else
      var n: nat := rest[4];
      ReadFrom(m[DWordAt(rest, 0) := Slice(rest, 5, 5 + n)], Slice(rest, 5 + n, |rest|))
  }

  /** Two bytes of serial and one of count are skipped; the count is not consulted. */
  function ReadParams(body: Bytes): map<DWord, Bytes> {
    ReadFrom(map[], Slice(body, 3, |body|))
  }

  method ParseParamsResponse(body: Bytes) returns (params: map<DWord, Bytes>)
    ensures params == ReadParams(body)
  {
    hide DWordAt, ReadFrom, Slice;
    params := map[];
    var offset := 3;
    while offset + 5 <= |body|
      invariant ReadFrom(params, Slice(body, offset, |body|)) == ReadParams(body)
      decreases |body| - offset
    {
      var paramId := DWordAt(body, offset);
      var paramLen: nat := body[offset + 4];
      var paramVal := Slice(body, offset + 5, offset + 5 + paramLen);
      ReadStep(params, body, offset);
      params := params[paramId := paramVal];
      offset := offset + 5 + paramLen;
    }
    ReadNothing(params, Slice(body, offset, |body|));
  }

  lemma ReadNothing(m: map<DWord, Bytes>, rest: Bytes)
    requires |rest| < 5
    ensures ReadFrom(m, rest) == m
  {
  }

  lemma ReadStep(m: map<DWord, Bytes>, body: Bytes, offset: nat)
    requires offset + 5 <= |body|
    ensures var n: nat := body[offset + 4];
            ReadFrom(m, Slice(body, offset, |body|))
            == ReadFrom(m[DWordAt(body, offset) := Slice(body, offset + 5, offset + 5 + n)],
                        Slice(body, offset + 5 + n, |body|))
  {
    hide ReadFrom, DWordAt, Slice;
    var rest := Slice(body, offset, |body|);
    SliceOfRest(body, offset, 5, body[offset + 4]);
    ReadUnfolded(m, rest);
    SameDWord(rest, body, offset);
  }

  lemma ReadUnfolded(m: map<DWord, Bytes>, rest: Bytes)
    requires |rest| >= 5
    ensures var n: nat := rest[4];
            ReadFrom(m, rest) == ReadFrom(m[DWordAt(rest, 0) := Slice(rest, 5, 5 + n)], Slice(rest, 5 + n, |rest|))
  {
  }

  lemma SameDWord(rest: Bytes, body: Bytes, offset: nat)
    requires offset + 4 <= |body| && |rest| >= 4
    requires forall j :: 0 <= j < 4 ==> rest[j] == body[offset + j]
    ensures DWordAt(rest, 0) == DWordAt(body, offset)
  {
  }

  /** The dictionary that a list of entries stands for. */
  function AsMap(m: map<DWord, Bytes>, params: seq<Param>): map<DWord, Bytes>
    decreases params
  {
    if params == [] then m else AsMap(m[params[0].id := params[0].value], params[1..])
  }

  lemma {:induction false} ReadEncoded(m: map<DWord, Bytes>, params: seq<Param>, tail: Bytes)
    requires forall i :: 0 <= i < |params| ==> |params[i].value| < 256
    ensures ReadFrom(m, EncodeAll(params) + tail) == ReadFrom(AsMap(m, params), tail)
    decreases params
  {
    if params == [] {
      assert EncodeAll(params) + tail == tail;
    } else {
      ConcatAssociates(EncodeParam(params[0]), EncodeAll(params[1..]), tail);
      ReadOne(m, params[0], EncodeAll(params[1..]) + tail);
      ReadEncoded(m[params[0].id := params[0].value], params[1..], tail);
    }
  }

  lemma ReadOne(m: map<DWord, Bytes>, p: Param, after: Bytes)
    requires |p.value| < 256
    ensures ReadFrom(m, EncodeParam(p) + after) == ReadFrom(m[p.id := p.value], after)
  {
    var rest, n := EncodeParam(p) + after, |p.value|;
    assert rest == [] + PackDWord(p.id) + ([n] + p.value + after);
    DWordRoundTrip([], p.id, [n] + p.value + after);
    assert rest[4] == n && Slice(rest, 5, 5 + n) == p.value && Slice(rest, 5 + n, |rest|) == after;
  }

  /** No complete entry starts here. */
  predicate Truncated(rest: Bytes) { |rest| < 5 || |rest| < 5 + rest[4] as nat }

  /** Every body is a list of complete entries followed by a truncated rest. */
  lemma {:induction false} Decompose(rest: Bytes) returns (params: seq<Param>, tail: Bytes)
    ensures forall i :: 0 <= i < |params| ==> |params[i].value| < 256
    ensures rest == EncodeAll(params) + tail && Truncated(tail)
    decreases |rest|
  {
    if Truncated(rest) {
      params, tail := [], rest;
    } else {
      var n: nat := rest[4];
      var p := Param(DWordAt(rest, 0), rest[5..5 + n]);
      params, tail := Decompose(rest[5 + n..]);
      FirstEntry(rest);
      ConcatAssociates(EncodeParam(p), EncodeAll(params), tail);
      assert ([p] + params)[1..] == params;
      params := [p] + params;
    }
  }

  lemma FirstEntry(rest: Bytes)
    requires !Truncated(rest)
    ensures var n: nat := rest[4];
            rest == EncodeParam(Param(DWordAt(rest, 0), rest[5..5 + n])) + rest[5 + n..]
  {
    var n: nat := rest[4];
    PackRead(rest);
    assert rest[..4] == [rest[0], rest[1], rest[2], rest[3]];
    assert rest == rest[..4] + [rest[4]] + rest[5..5 + n] + rest[5 + n..];
  }

  lemma PackRead(rest: Bytes)
    requires |rest| >= 4
    ensures PackDWord(DWordAt(rest, 0)) == [rest[0], rest[1], rest[2], rest[3]]
  {
  }

  /**
   What is read from any body: three bytes are skipped, whatever the count says, the complete
   entries are taken in order, and a truncated last one counts with the bytes that are there.
   */
  lemma ReadBody(head: Bytes, params: seq<Param>, tail: Bytes)
    requires |head| == 3 && Truncated(tail)
    requires forall i :: 0 <= i < |params| ==> |params[i].value| < 256
    ensures var d := AsMap(map[], params);
            ReadParams(head + EncodeAll(params) + tail)
            == if |tail| < 5 then d else d[DWordAt(tail, 0) := tail[5..]]
  {
    hide EncodeAll, DWordAt;
    var body := head + EncodeAll(params) + tail;
    assert Slice(body, 3, |body|) == EncodeAll(params) + tail;
    ReadEncoded(map[], params, tail);
    ReadTail(AsMap(map[], params), tail);
  }

  lemma ReadTail(m: map<DWord, Bytes>, tail: Bytes)
    requires Truncated(tail)
    ensures ReadFrom(m, tail) == if |tail| < 5 then m else m[DWordAt(tail, 0) := tail[5..]]
  {
    hide DWordAt;
    if |tail| >= 5 {
      var n: nat := tail[4];
      assert Slice(tail, 5, 5 + n) == tail[5..];
      assert Slice(tail, 5 + n, |tail|) == [];
    }
  }

  function Ids(params: seq<Param>): set<DWord> {
    if params == [] then {} else {params[0].id} + Ids(params[1..])
  }

  lemma {:induction false} IdsAreThose(params: seq<Param>, id: DWord)
    ensures id in Ids(params) <==> exists i :: 0 <= i < |params| && params[i].id == id
  {
    if params != [] {
      var rest := params[1..];
      IdsAreThose(rest, id);
      assert forall i :: 0 <= i < |rest| ==> rest[i] == params[i + 1];
      if i :| 0 <= i < |params| && params[i].id == id {
        assert i > 0 ==> rest[i - 1].id == id;
      }
    }
  }

  lemma {:induction false} IdsCount(params: seq<Param>)
    requires DistinctIds(params)
    ensures |Ids(params)| == |params|
  {
    if params != [] {
      IdsCount(params[1..]);
      IdsAreThose(params[1..], params[0].id);
    }
  }

  lemma {:induction false} AsMapKeys(m: map<DWord, Bytes>, params: seq<Param>)
    ensures AsMap(m, params).Keys == m.Keys + Ids(params)
    decreases params
  {
    if params != [] {
      AsMapKeys(m[params[0].id := params[0].value], params[1..]);
    }
  }

  lemma {:induction false} AsMapKeeps(m: map<DWord, Bytes>, params: seq<Param>, id: DWord)
    requires id in m && id !in Ids(params)
    ensures id in AsMap(m, params) && AsMap(m, params)[id] == m[id]
    decreases params
  {
    if params != [] {
      AsMapKeeps(m[params[0].id := params[0].value], params[1..], id);
    }
  }

  /** An identifier that occurs again later is overwritten; the last occurrence stands. */
  lemma {:induction false} LastStands(m: map<DWord, Bytes>, params: seq<Param>, i: nat)
    requires i < |params| && forall j :: i < j < |params| ==> params[j].id != params[i].id
    ensures params[i].id in AsMap(m, params) && AsMap(m, params)[params[i].id] == params[i].value
    decreases params
  {
    var rest, next := params[1..], m[params[0].id := params[0].value];
    if i == 0 {
      IdsAreThose(rest, params[0].id);
      AsMapKeeps(next, rest, params[0].id);
    } else {
      assert rest[i - 1] == params[i];
      LastStands(next, rest, i - 1);
    }
  }

  /** Any serial in front of the body of 0x8103 reads back as exactly the dictionary that was sent. */
  lemma SetParamsRoundTrip(serial: Word, params: seq<Param>)
    requires Encodable(params) && DistinctIds(params)
    ensures var d := ReadParams(PackWord(serial) + SetBody(params));
            && |d| == |params|
            && forall i :: 0 <= i < |params| ==> params[i].id in d && d[params[i].id] == params[i].value
  {
    var body := PackWord(serial) + SetBody(params);
    assert Slice(body, 3, |body|) == EncodeAll(params) + [];
    ReadEncoded(map[], params, []);
    AsMapKeys(map[], params);
    IdsCount(params);
    var d := AsMap(map[], params);
    assert |d| == |d.Keys| && d.Keys == Ids(params);
    forall i | 0 <= i < |params|
      ensures params[i].id in d && d[params[i].id] == params[i].value
    {
      LastStands(map[], params, i);
    }
  }

  /** The whole way: what a terminal parses out of the framed message reads back as the dictionary. */
  lemma SetParamsOverTheWire(phone: string, serialNo: Word, serial: Word, params: seq<Param>)
    requires Bcd.AllHex(phone) && |phone| <= 12 && Encodable(params) && DistinctIds(params)
    ensures var h := MessageCodec.Header(0x8103, phone, serialNo, 0, 0, false, 0, 0);
            var inner := MessageCodec.EncodeHeader(h, |SetBody(params)|) + SetBody(params);
            var parsed := MessageCodec.ParseMessage(Seal(inner));
            && MessageCodec.FrameUp(inner)
               == MessageCodec.BuildMessage(0x8103, phone, serialNo, SetBody(params))
            && parsed.Parsed?
            && ReadParams(PackWord(serial) + parsed.msg.body) == AsMap(map[], params)
  {
    hide MessageCodec.ParseMessage, MessageCodec.EncodeHeader, MessageCodec.FrameUp, Seal;
    var body := PackWord(serial) + SetBody(params);
    var h := MessageCodec.Header(0x8103, phone, serialNo, 0, 0, false, 0, 0);
    MessageCodec.MessageRoundTrip(h, SetBody(params));
    assert Slice(body, 3, |body|) == EncodeAll(params) + [];
    ReadEncoded(map[], params, []);
  }
}
