/**
 The two-state automaton that frame assembly in core/connection.py refines: outside a
 frame bytes are dropped, inside they accumulate, and every flag changes the state.
 */
module Assembly {
  import opened Bytes
  import opened Stuffing
  import opened FrameCodec

  datatype State = Outside | Inside(acc: Bytes)

  /** The state reached and the non-empty segments closed on the way. */
  datatype Scanned = Scanned(state: State, segments: seq<Bytes>)

  function Next(st: State, b: Byte): Scanned {
    match st
    case Outside => Scanned(if b == FLAG then Inside([]) else Outside, [])
    case Inside(acc) =>
      if b != FLAG then Scanned(Inside(acc + [b]), [])
      else Scanned(Outside, if acc == [] then [] else [acc])
  }

  function Scan(st: State, data: Bytes): Scanned
    decreases data
  {
    if data == [] then Scanned(st, [])
    else
      var first := Next(st, data[0]);
      var rest := Scan(first.state, data[1..]);
      Scanned(rest.state, first.segments + rest.segments)
  }

  /** Scanning in pieces, from any state, is scanning the whole. */
  lemma {:induction false} ScanConcat(st: State, a: Bytes, b: Bytes)
    ensures var first := Scan(st, a);
            var second := Scan(first.state, b);
            Scan(st, a + b) == Scanned(second.state, first.segments + second.segments)
    decreases a
  {
    if a == [] {
      assert a + b == b;
    } else {
      assert (a + b)[1..] == a[1..] + b;
      ScanConcat(Next(st, a[0]).state, a[1..], b);
    }
  }

  /** Without a flag nothing is closed. */
  lemma {:induction false} ScanQuiet(st: State, data: Bytes)
    requires FLAG !in data
    ensures Scan(st, data) == Scanned(match st case Outside => Outside case Inside(acc) => Inside(acc + data), [])
    decreases data
  {
    if data == [] {
      assert st.Inside? ==> st.acc + data == st.acc;
    } else {
      ScanQuiet(Next(st, data[0]).state, data[1..]);
      assert st.Inside? ==> st.acc + data == st.acc + [data[0]] + data[1..];
    }
  }

  lemma ScanFlag(st: State)
    ensures Scan(st, [FLAG]) == Next(st, FLAG)
  {
    var first := Next(st, FLAG);
    assert Scan(st, [FLAG]) == Scanned(Scan(first.state, []).state, first.segments + Scan(first.state, []).segments);
  }

  /** A closed segment, after any garbage: it is delivered unless it is empty. */
  lemma ScanClosed(noise: Bytes, segment: Bytes)
    requires FLAG !in noise && FLAG !in segment
    ensures Scan(Outside, noise + [FLAG] + segment + [FLAG])
         == Scanned(Outside, if segment == [] then [] else [segment])
  {
    ScanOpen(noise, segment);
    ScanFlag(Inside(segment));
    ScanConcat(Outside, noise + [FLAG] + segment, [FLAG]);
  }

  lemma ScanDelimited(segment: Bytes)
    requires FLAG !in segment
    ensures Scan(Outside, [FLAG] + segment + [FLAG])
         == Scanned(Outside, if segment == [] then [] else [segment])
  {
    ScanClosed([], segment);
    assert [] + [FLAG] + segment + [FLAG] == [FLAG] + segment + [FLAG];
  }

  /** A segment that is still open. */
  lemma ScanOpen(noise: Bytes, segment: Bytes)
    requires FLAG !in noise && FLAG !in segment
    ensures Scan(Outside, noise + [FLAG] + segment) == Scanned(Inside(segment), [])
  {
    ScanQuiet(Outside, noise);
    ScanFlag(Outside);
    ScanConcat(Outside, noise, [FLAG]);
    ScanQuiet(Inside([]), segment);
    ScanConcat(Outside, noise + [FLAG], segment);
    assert [] + segment == segment;
  }

  // ---- The buffer that stands for a state ----

  function Buffer(st: State): Bytes {
    match st
    case Outside => []
    case Inside(acc) => [FLAG] + acc
  }

  /** Empty, or exactly one flag, at index 0. */
  predicate BufferShape(buf: Bytes) {
    buf == [] || (buf[0] == FLAG && FLAG !in buf[1..])
  }

  function StateOf(buf: Bytes): State {
    if buf == [] then Outside else Inside(buf[1..])
  }

  /** Rescanning a buffer reaches the state it stands for, so the bytes before it can be forgotten. */
  lemma ScanBuffer(buf: Bytes)
    requires BufferShape(buf)
    ensures Scan(Outside, buf) == Scanned(StateOf(buf), []) && Buffer(StateOf(buf)) == buf
  {
    if buf != [] {
      ScanOpen([], buf[1..]);
      assert buf == [] + [FLAG] + buf[1..];
    }
  }

  lemma {:induction false} ScanKeepsShape(st: State, data: Bytes)
    requires st.Inside? ==> FLAG !in st.acc
    ensures BufferShape(Buffer(Scan(st, data).state))
    ensures StateOf(Buffer(Scan(st, data).state)) == Scan(st, data).state
    ensures forall i :: 0 <= i < |Scan(st, data).segments| ==>
              Scan(st, data).segments[i] != [] && FLAG !in Scan(st, data).segments[i]
    decreases data
  {
    if data == [] {
      assert st.Inside? ==> Buffer(st)[1..] == st.acc;
    } else {
      ScanKeepsShape(Next(st, data[0]).state, data[1..]);
    }
  }

  // ---- Segments ----

  /** The frames among the segments: those that do not parse are dropped one by one. */
  function FramesOf(segments: seq<Bytes>): seq<Frame> {
    if segments == [] then []
    else
      match ParseFrame(Unescape(segments[0]))
      case None => FramesOf(segments[1..])
      case Some(frame) => [frame] + FramesOf(segments[1..])
  }

  lemma {:induction false} FramesOfConcat(a: seq<Bytes>, b: seq<Bytes>)
    ensures FramesOf(a + b) == FramesOf(a) + FramesOf(b)
  {
    if a == [] {
      assert a + b == b;
    } else {
      assert (a + b)[1..] == a[1..] + b;
      FramesOfConcat(a[1..], b);
    }
  }

  lemma FramesOfOne(segment: Bytes)
    ensures FramesOf([segment]) == match ParseFrame(Unescape(segment)) case None => [] case Some(frame) => [frame]
  {
    assert FramesOf([segment][1..]) == [];
  }

  /** `data.split(FLAG)` */
  function Split(data: Bytes): (segs: seq<Bytes>)
    ensures |segs| >= 1
  {
    if data == [] then [[]]
    else
      var rest := Split(data[1..]);
      if data[0] == FLAG then [[]] + rest
      else [[data[0]] + rest[0]] + rest[1..]
  }

  /** The segments joined by flags. */
  function Join(segs: seq<Bytes>): Bytes
    requires segs != []
  {
    if |segs| == 1 then segs[0] else segs[0] + [FLAG] + Join(segs[1..])
  }

  lemma {:induction false} JoinSplit(data: Bytes)
    ensures Join(Split(data)) == data
    ensures forall i :: 0 <= i < |Split(data)| ==> FLAG !in Split(data)[i]
  {
    if data != [] {
      JoinSplit(data[1..]);
      var rest := Split(data[1..]);
      assert data == [data[0]] + data[1..];
      if data[0] == FLAG {
        assert Split(data)[1..] == rest;
      } else {
        assert Split(data)[1..] == rest[1..];
      }
    }
  }

  /** The non-empty closed segments of odd index, in order. */
  function OddClosed(segs: seq<Bytes>): seq<Bytes> {
    if |segs| <= 2 then []
    else (if segs[1] == [] then [] else [segs[1]]) + OddClosed(segs[2..])
  }

  /** Where scanning stops: at an even last segment outside, at an odd one inside it. */
  function EndState(segs: seq<Bytes>): State
    requires segs != []
  {
    if |segs| % 2 == 1 then Outside else Inside(segs[|segs| - 1])
  }

  /** The segments as they would be had the scan started outside. */
  function Resumed(st: State, segs: seq<Bytes>): seq<Bytes>
    requires segs != []
  {
    match st
    case Outside => segs
    case Inside(acc) => [[], acc + segs[0]] + segs[1..]
  }

  lemma {:induction false} ScanSegmentsFrom(st: State, data: Bytes)
    ensures var segs := Resumed(st, Split(data));
            Scan(st, data) == Scanned(EndState(segs), OddClosed(segs))
    decreases data
  {
    if data == [] {
      assert st.Inside? ==> st.acc + [] == st.acc;
    } else {
      var first := Next(st, data[0]);
      ScanSegmentsFrom(first.state, data[1..]);
      ResumeStep(st, data);
    }
  }

  lemma ResumeStep(st: State, data: Bytes)
    requires data != []
    ensures var first, segs := Next(st, data[0]), Resumed(st, Split(data));
            var later := Resumed(first.state, Split(data[1..]));
            && OddClosed(segs) == first.segments + OddClosed(later)
            && EndState(segs) == EndState(later)
  {
    var rest := Split(data[1..]);
    match st
    case Outside =>
      if data[0] == FLAG {
        assert [] + rest[0] == rest[0];
        assert Resumed(st, [[]] + rest) == Resumed(Inside([]), rest);
      } else {
        FirstSegmentIgnored(rest, [[data[0]] + rest[0]] + rest[1..]);
      }
    case Inside(acc) =>
      if data[0] == FLAG {
        assert acc + [] == acc && ([[]] + rest)[1..] == rest;
        EvenPrefix(acc, rest);
      } else {
        assert acc + ([data[0]] + rest[0]) == acc + [data[0]] + rest[0];
        assert ([[data[0]] + rest[0]] + rest[1..])[1..] == rest[1..];
        assert Resumed(st, [[data[0]] + rest[0]] + rest[1..]) == Resumed(Inside(acc + [data[0]]), rest);
      }
  }

  lemma FirstSegmentIgnored(a: seq<Bytes>, b: seq<Bytes>)
    requires |a| == |b| >= 1 && a[1..] == b[1..]
    ensures OddClosed(a) == OddClosed(b) && EndState(a) == EndState(b)
  {
    if |a| > 1 {
      assert a[1] == a[1..][0] == b[1];
      assert a[|a| - 1] == a[1..][|a| - 2] == b[|a| - 1];
    }
    if |a| > 2 {
      assert a[2..] == a[1..][1..] == b[2..];
    }
  }

  lemma EvenPrefix(acc: Bytes, rest: seq<Bytes>)
    requires rest != []
    ensures var segs := [[], acc] + rest;
            && OddClosed(segs) == (if acc == [] then [] else [acc]) + OddClosed(rest)
            && EndState(segs) == EndState(rest)
  {
    var segs := [[], acc] + rest;
    assert segs[2..] == rest && segs[|segs| - 1] == rest[|rest| - 1];
  }

  /** What a fresh connection delivers, in terms of the whole stream cut at its flags. */
  lemma ScanSegments(data: Bytes)
    ensures Scan(Outside, data) == Scanned(EndState(Split(data)), OddClosed(Split(data)))
  {
    ScanSegmentsFrom(Outside, data);
  }
}
