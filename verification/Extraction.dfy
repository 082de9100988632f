/**
 jt808/protocol.py extract_frames and the receive loop of jt808/server.py. Here the flag
 that closes a segment also opens the next one, an empty segment drops both its flags, and
 garbage stays in the buffer until a flag arrives.
 */
module Extraction {
  import opened Bytes
  import opened Stuffing
  import Assembly

  datatype State = Out(skipped: Bytes) | In(acc: Bytes)

  datatype Scanned = Scanned(state: State, segments: seq<Bytes>)

  const START := Out([])

  function Next(st: State, b: Byte): Scanned {
    match st
    case Out(skipped) => Scanned(if b == FLAG then In([]) else Out(skipped + [b]), [])
    case In(acc) =>
      if b != FLAG then Scanned(In(acc + [b]), [])
      else if acc == [] then Scanned(START, [])
      else Scanned(In([]), [acc])
  }

  function Scan(st: State, data: Bytes): Scanned
    decreases data
  {
    if data == [] then Scanned(st, [])
    else
      var first := Next(st, data[0]);
      var rest := Scan(first.state, data[1..]);
      Scanned(rest.state, first.segments + rest.segments)
  }

  function Pending(st: State): Bytes {
    match st case Out(skipped) => skipped case In(acc) => acc
  }

  function Buffer(st: State): Bytes {
    match st case Out(skipped) => skipped case In(acc) => [FLAG] + acc
  }

  /** The states in which the pending bytes hold no flag: all that a scan ever reaches. */
  predicate Quiet(st: State) { FLAG !in Pending(st) }

  function Extended(st: State, data: Bytes): State {
    match st case Out(skipped) => Out(skipped + data) case In(acc) => In(acc + data)
  }

  lemma {:induction false} ScanConcat(st: State, a: Bytes, b: Bytes)
    ensures var first := Scan(st, a);
            var second := Scan(first.state, b);
            Scan(st, a + b) == Scanned(second.state, first.segments + second.segments)
    decreases a
  {
    if a == [] {
      assert a + b == b;
    } else {
      assert (a + b)[1..] == a[1..] + b;
      ScanConcat(Next(st, a[0]).state, a[1..], b);
    }
  }

  lemma {:induction false} ScanQuiet(st: State, data: Bytes)
    requires FLAG !in data
    ensures Scan(st, data) == Scanned(Extended(st, data), [])
    decreases data
  {
    if data == [] {
      assert Pending(st) + data == Pending(st);
    } else {
      ScanQuiet(Next(st, data[0]).state, data[1..]);
      assert Pending(st) + data == Pending(st) + [data[0]] + data[1..];
    }
  }

  lemma ScanFlag(st: State)
    ensures Scan(st, [FLAG]) == Next(st, FLAG)
  {
    var first := Next(st, FLAG);
    assert Scan(st, [FLAG]) == Scanned(Scan(first.state, []).state, first.segments + Scan(first.state, []).segments);
  }

  /** Up to and including the next flag. */
  lemma ScanToFlag(st: State, data: Bytes)
    requires FLAG !in data
    ensures Scan(st, data + [FLAG]) == Next(Extended(st, data), FLAG)
  {
    ScanQuiet(st, data);
    ScanFlag(Extended(st, data));
    ScanConcat(st, data, [FLAG]);
    assert [] + Next(Extended(st, data), FLAG).segments == Next(Extended(st, data), FLAG).segments;
  }

  /** Rescanning the buffer that stands for a state reaches that state and delivers nothing again. */
  lemma Rescan(st: State)
    requires Quiet(st)
    ensures Scan(START, Buffer(st)) == Scanned(st, [])
  {
    match st
    case Out(skipped) =>
      ScanQuiet(START, skipped);
      assert [] + skipped == skipped;
    case In(acc) =>
      ScanFlag(START);
      ScanQuiet(In([]), acc);
      ScanConcat(START, [FLAG], acc);
      assert [] + acc == acc;
  }

  lemma {:induction false} ScanStaysQuiet(st: State, data: Bytes)
    requires Quiet(st)
    ensures Quiet(Scan(st, data).state)
    decreases data
  {
    if data != [] {
      ScanStaysQuiet(Next(st, data[0]).state, data[1..]);
    }
  }

  /** The leftover buffer carries everything: continuing from it is continuing from the state. */
  lemma Continue(st: State, data: Bytes)
    requires Quiet(st)
    ensures Scan(START, Buffer(st) + data) == Scan(st, data)
  {
    Rescan(st);
    ScanConcat(START, Buffer(st), data);
    assert [] + Scan(st, data).segments == Scan(st, data).segments;
  }

  function Payloads(segments: seq<Bytes>): seq<Bytes> {
    if segments == [] then [] else [Unescape(segments[0])] + Payloads(segments[1..])
  }

  lemma {:induction false} PayloadsConcat(a: seq<Bytes>, b: seq<Bytes>)
    ensures Payloads(a + b) == Payloads(a) + Payloads(b)
  {
    if a == [] {
      assert a + b == b;
    } else {
      assert (a + b)[1..] == a[1..] + b;
      PayloadsConcat(a[1..], b);
    }
  }

  method ExtractFrames(input: Bytes) returns (frames: seq<Bytes>, buf: Bytes)
    ensures buf == Buffer(Scan(START, input).state)
    ensures frames == Payloads(Scan(START, input).segments)
  {
    frames, buf := [], input;
    while true
      invariant Scan(START, buf).state == Scan(START, input).state
      invariant frames + Payloads(Scan(START, buf).segments) == Payloads(Scan(START, input).segments)
      decreases |buf|
    {
      var start := Find(buf, FLAG, 0);
      if start == -1 {
        ScanQuiet(START, buf);
        break;
      }
      var end := Find(buf, FLAG, start + 1);
      FirstSegment(frames, buf, start, if end == -1 then |buf| else end);
      if end == -1 {
        buf := buf[start..];
        break;
      }
      var rawFrame := buf[start + 1..end];
      buf := buf[end..];
      if rawFrame == [] {
        buf := buf[1..];
        continue;
      }
      var payload := UnescapeBytes(rawFrame);
      frames := frames + [payload];
    }
    assert frames + [] == frames;
  }

  /** One round of the loop: the bytes after the first flag, up to the second one or the end. */
  lemma FirstSegment(frames: seq<Bytes>, buf: Bytes, start: nat, end: nat)
    requires start < end <= |buf| && buf[start] == FLAG && FLAG !in buf[..start] && FLAG !in buf[start + 1..end]
    requires end < |buf| ==> buf[end] == FLAG
    ensures var segment := buf[start + 1..end];
            if end == |buf| then
              Scan(START, buf) == Scanned(In(segment), []) && Buffer(In(segment)) == buf[start..]
            else
              var rest := if segment == [] then buf[end..][1..] else buf[end..];
              && Scan(START, buf).state == Scan(START, rest).state
              && frames + Payloads(Scan(START, buf).segments)
              == (if segment == [] then frames else frames + [Unescape(segment)]) + Payloads(Scan(START, rest).segments)
  {
    hide Scan, Next;
    var segment := buf[start + 1..end];
    OpenSegment(buf, start, end);
    assert buf == buf[..end] + buf[end..];
    if end == |buf| {
      assert buf[..end] == buf;
    } else {
      var after := buf[end..][1..];
      assert buf[end..] == [FLAG] + after;
      ScanConcat(START, buf[..end], buf[end..]);
      ClosingFlag(segment, after);
      assert [] + Scan(In(segment), buf[end..]).segments == Scan(In(segment), buf[end..]).segments;
      if segment != [] {
        FirstPayload(frames, segment, Scan(START, buf[end..]).segments);
      }
    }
  }

  lemma FirstPayload(frames: seq<Bytes>, segment: Bytes, segments: seq<Bytes>)
    ensures frames + Payloads([segment] + segments) == frames + [Unescape(segment)] + Payloads(segments)
  {
    assert ([segment] + segments)[1..] == segments;
    ConcatAssociates(frames, [Unescape(segment)], Payloads(segments));
  }

  lemma OpenSegment(buf: Bytes, start: nat, end: nat)
    requires start < end <= |buf| && buf[start] == FLAG && FLAG !in buf[..start] && FLAG !in buf[start + 1..end]
    ensures Scan(START, buf[..end]) == Scanned(In(buf[start + 1..end]), [])
  {
    var noise, segment := buf[..start], buf[start + 1..end];
    ScanToFlag(START, noise);
    ScanQuiet(In([]), segment);
    ScanConcat(START, noise + [FLAG], segment);
    assert buf[..end] == noise + [FLAG] + segment;
    assert [] + segment == segment;
  }

  /** The closing flag of a non-empty segment acts as an opening flag at the start of the rest. */
  lemma ClosingFlag(segment: Bytes, after: Bytes)
    ensures var whole := Scan(In(segment), [FLAG] + after);
            if segment == [] then whole == Scan(START, after)
            else
              var rest := Scan(START, [FLAG] + after);
              whole == Scanned(rest.state, [segment] + rest.segments)
  {
    assert ([FLAG] + after)[1..] == after;
    var next := Next(In(segment), FLAG);
    assert Scan(In(segment), [FLAG] + after)
        == Scanned(Scan(next.state, after).state, next.segments + Scan(next.state, after).segments);
    assert [] + Scan(next.state, after).segments == Scan(next.state, after).segments;
  }

  /** The receive loop: the leftover buffer is threaded through every chunk. */
  method ReceiveAll(leftover: Bytes, chunks: seq<Bytes>, ghost st: State) returns (payloads: seq<Bytes>, buf: Bytes)
    requires Quiet(st) && leftover == Buffer(st)
    ensures buf == Buffer(Scan(st, Concat(chunks)).state)
    ensures payloads == Payloads(Scan(st, Concat(chunks)).segments)
  {
    payloads, buf := [], leftover;
    ghost var seen := [];
    for i := 0 to |chunks|
      invariant Concat(chunks) == seen + Concat(chunks[i..])
      invariant buf == Buffer(Scan(st, seen).state)
      invariant payloads == Payloads(Scan(st, seen).segments)
    {
      ReceiveStep(st, seen, chunks, i);
      buf := buf + chunks[i];
      var frames;
      frames, buf := ExtractFrames(buf);
      payloads := payloads + frames;
      seen := seen + chunks[i];
    }
    assert seen + [] == seen;
  }

  lemma ReceiveStep(st: State, seen: Bytes, chunks: seq<Bytes>, i: nat)
    requires i < |chunks| && Quiet(st)
    ensures seen + Concat(chunks[i..]) == seen + chunks[i] + Concat(chunks[i + 1..])
    ensures var before, after := Scan(st, seen), Scan(st, seen + chunks[i]);
            var more := Scan(START, Buffer(before.state) + chunks[i]);
            && after.state == more.state
            && Payloads(after.segments) == Payloads(before.segments) + Payloads(more.segments)
  {
    assert chunks[i..][1..] == chunks[i + 1..];
    ConcatAssociates(seen, chunks[i], Concat(chunks[i + 1..]));
    ScanConcat(st, seen, chunks[i]);
    ScanStaysQuiet(st, seen);
    Continue(Scan(st, seen).state, chunks[i]);
    PayloadsConcat(Scan(st, seen).segments, Scan(Scan(st, seen).state, chunks[i]).segments);
  }

  // ---- In terms of the stream cut at its flags ----

  /** The closed segments that are delivered: an empty one, while open, closes without opening the next. */
  function Opened(segs: seq<Bytes>, open: bool): seq<Bytes> {
    if |segs| <= 1 then []
    else if !open then Opened(segs[1..], true)
    else if segs[0] == [] then Opened(segs[1..], false)
    else [segs[0]] + Opened(segs[1..], true)
  }

  function Resumed(st: State, segs: seq<Bytes>): (r: seq<Bytes>)
    requires segs != []
    ensures |r| == |segs|
  {
    [Pending(st) + segs[0]] + segs[1..]
  }

  /** Whether a flag is open after all segments. */
  predicate OpenAtEnd(segs: seq<Bytes>, open: bool) {
    if |segs| <= 1 then open else OpenAtEnd(segs[1..], !open || segs[0] != [])
  }

  lemma {:induction false} ScanSegmentsFrom(st: State, data: Bytes)
    ensures Scan(st, data).segments == Opened(Resumed(st, Assembly.Split(data)), st.In?)
    decreases data
  {
    if data != [] {
      var next, rest := Next(st, data[0]), Assembly.Split(data[1..]);
      ScanSegmentsFrom(next.state, data[1..]);
      var segs := Resumed(st, Assembly.Split(data));
      if data[0] == FLAG {
        assert Pending(st) + [] == Pending(st) && [] + rest[0] == rest[0];
        assert segs[0] == Pending(st) && segs[1..] == rest;
        assert Resumed(next.state, rest) == rest;
      } else {
        assert Pending(st) + ([data[0]] + rest[0]) == Pending(st) + [data[0]] + rest[0];
        assert segs == Resumed(next.state, rest);
      }
    }
  }

  /** The last segment is pending, inside exactly if a flag is open. */
  predicate EndsAt(end: State, segs: seq<Bytes>, open: bool)
    requires segs != []
  {
    var last := segs[|segs| - 1];
    end == if OpenAtEnd(segs, open) then In(last) else Out(last)
  }

  lemma {:induction false} ScanEndsAt(st: State, data: Bytes)
    ensures EndsAt(Scan(st, data).state, Resumed(st, Assembly.Split(data)), st.In?)
    decreases data
  {
    if data == [] {
      assert Pending(st) + [] == Pending(st);
    } else {
      hide EndsAt, Next, Resumed;
      var next, rest := Next(st, data[0]), Assembly.Split(data[1..]);
      ScanEndsAt(next.state, data[1..]);
      assert Scan(st, data).state == Scan(next.state, data[1..]).state;
      if data[0] == FLAG {
        FlagEnds(Scan(st, data).state, st, rest);
      } else {
        ByteExtends(st, data[0], rest);
      }
    }
  }

  lemma ByteExtends(st: State, b: Byte, rest: seq<Bytes>)
    requires rest != [] && b != FLAG
    ensures Resumed(st, [[b] + rest[0]] + rest[1..]) == Resumed(Next(st, b).state, rest)
    ensures Next(st, b).state.In? == st.In?
  {
    assert Pending(st) + ([b] + rest[0]) == Pending(st) + [b] + rest[0];
  }

  lemma FlagEnds(end: State, st: State, rest: seq<Bytes>)
    requires rest != []
    ensures var segs, next := Resumed(st, [[]] + rest), Next(st, FLAG).state;
            EndsAt(end, segs, st.In?) <==> EndsAt(end, Resumed(next, rest), next.In?)
  {
    var segs := Resumed(st, [[]] + rest);
    assert Pending(st) + [] == Pending(st) && [] + rest[0] == rest[0];
    assert segs[0] == Pending(st) && segs[1..] == rest;
    assert Resumed(Next(st, FLAG).state, rest) == rest;
  }

  /** What is delivered and what is left, in terms of the whole stream cut at its flags. */
  lemma ScanSegments(data: Bytes)
    ensures Scan(START, data).segments == Opened(Assembly.Split(data), false)
    ensures var segs := Assembly.Split(data);
            Buffer(Scan(START, data).state)
            == (if OpenAtEnd(segs, false) then [FLAG] else []) + segs[|segs| - 1]
  {
    ScanSegmentsFrom(START, data);
    ScanEndsAt(START, data);
    var segs := Assembly.Split(data);
    assert [] + segs[0] == segs[0];
    assert Resumed(START, segs) == segs;
  }
}
