/** core/connection.py: one terminal connection, its assembly buffer and its serial counter. */
module Connection {
  import opened Bytes
  import opened Stuffing
  import opened FrameCodec
  import opened Assembly
  import Bcd

  const NO_PHONE := "000000000000"

  class TerminalConnection {
    var phone: Option<string>
    var authenticated: bool
    var serial: Word
    var buf: Bytes

    predicate Valid()
      reads this
    {
      BufferShape(buf) && (phone.Some? ==> Bcd.AllHex(phone.value))
    }

    constructor ()
      ensures Valid() && phone == None && !authenticated && serial == 0 && buf == []
    {
      phone, authenticated, serial, buf := None, false, 0, [];
    }

    method NextSerial() returns (next: Word)
      modifies this`serial
      ensures serial == next == (old(serial) + 1) % 0x1_0000
    {
      serial := (serial + 1) % 0x1_0000;
      next := serial;
    }

    /** The bytes handed to the writer. */
    method SendFrame(msgId: Word, body: Bytes) returns (raw: Bytes)
      requires Valid()
      modifies this`serial
      ensures serial == (old(serial) + 1) % 0x1_0000
      ensures raw == BuildFrame(msgId, body, PhoneOrZeros(phone), serial)
      ensures phone == None || phone == Some("") ==> raw == BuildFrame(msgId, body, "000000000000", serial)
      ensures phone.Some? && phone.value != "" ==> raw == BuildFrame(msgId, body, phone.value, serial)
    {
      var next := NextSerial();
      raw := BuildFrame(msgId, body, PhoneOrZeros(phone), next);
    }

    method Feed(data: Bytes) returns (frames: seq<Frame>)
      requires Valid()
      modifies this`buf
      ensures Valid()
      ensures buf == Buffer(Scan(StateOf(old(buf)), data).state)
      ensures frames == FramesOf(Scan(StateOf(old(buf)), data).segments)
    {
      hide ParseFrame, Unescape, Scan;
      FeedStart(buf, data);
      buf := buf + data;
      frames := [];
      ghost var whole := buf;
      while true
        invariant Scan(Outside, buf).state == Scan(Outside, whole).state
        invariant frames + Delivered(buf) == Delivered(whole)
        decreases |buf|
      {
        var start := Find(buf, FLAG, 0);
        if start == -1 {
          ScanQuiet(Outside, buf);
          buf := [];
          break;
        }
        DropNoise(buf, start);
        buf := buf[start..];
        var end := Find(buf, FLAG, 1);
        if end == -1 {
          ScanBuffer(buf);
          break;
        }
        var rawEscaped := buf[1..end];
        FirstFrame(frames, buf, end);
        buf := buf[end + 1..];
        if rawEscaped == [] {
          continue;
        }
        var raw := UnescapeBytes(rawEscaped);
        var frame := ParseFrame(raw);
        if frame.Some? {
          frames := frames + [frame.value];
        }
      }
      assert frames + [] == frames;
    }

    /** Every chunk read from the socket, in turn. */
    method FeedAll(chunks: seq<Bytes>) returns (frames: seq<Frame>)
      requires Valid()
      modifies this`buf
      ensures Valid()
      ensures buf == Buffer(Scan(StateOf(old(buf)), Concat(chunks)).state)
      ensures frames == FramesOf(Scan(StateOf(old(buf)), Concat(chunks)).segments)
    {
      frames := [];
      ghost var st, seen := StateOf(buf), [];
      ScanBuffer(buf);
      for i := 0 to |chunks|
        invariant Valid()
        invariant Concat(chunks) == seen + Concat(chunks[i..])
        invariant buf == Buffer(Scan(st, seen).state) && StateOf(buf) == Scan(st, seen).state
        invariant frames == FramesOf(Scan(st, seen).segments)
      {
        var more := Feed(chunks[i]);
        FeedStep(st, seen, chunks, i);
        seen := seen + chunks[i];
        frames := frames + more;
      }
      assert seen + [] == seen;
    }
  }

  /** The frames of the bytes seen so far and of the next chunk are the frames of both together. */
  lemma FeedStep(st: State, seen: Bytes, chunks: seq<Bytes>, i: nat)
    requires i < |chunks| && (st.Inside? ==> FLAG !in st.acc)
    ensures seen + Concat(chunks[i..]) == seen + chunks[i] + Concat(chunks[i + 1..])
    ensures var before := Scan(st, seen);
            var after, more := Scan(st, seen + chunks[i]), Scan(before.state, chunks[i]);
            && after.state == more.state && StateOf(Buffer(after.state)) == after.state
            && FramesOf(after.segments) == FramesOf(before.segments) + FramesOf(more.segments)
  {
    assert chunks[i..][1..] == chunks[i + 1..];
    ConcatAssociates(seen, chunks[i], Concat(chunks[i + 1..]));
    ScanConcat(st, seen, chunks[i]);
    ScanKeepsShape(st, seen + chunks[i]);
    FramesOfConcat(Scan(st, seen).segments, Scan(Scan(st, seen).state, chunks[i]).segments);
  }

  /** `self.phone or "000000000000"` */
  function PhoneOrZeros(phone: Option<string>): (p: string)
    ensures phone.Some? && Bcd.AllHex(phone.value) ==> Bcd.AllHex(p)
    ensures phone.None? ==> Bcd.AllHex(p)
  {
    if phone.Some? && phone.value != "" then phone.value else NO_PHONE
  }

  lemma DropNoise(buf: Bytes, start: nat)
    requires start < |buf| && FLAG !in buf[..start]
    ensures Scan(Outside, buf[start..]) == Scan(Outside, buf)
  {
    assert buf == buf[..start] + buf[start..];
    ScanQuiet(Outside, buf[..start]);
    ScanConcat(Outside, buf[..start], buf[start..]);
  }

  /** All frames that a buffer holds, read from its beginning. */
  function Delivered(buf: Bytes): seq<Frame> {
    FramesOf(Scan(Outside, buf).segments)
  }

  /** Appending to the buffer is continuing from the state it stands for. */
  lemma FeedStart(buf: Bytes, data: Bytes)
    requires BufferShape(buf)
    ensures Scan(Outside, buf + data).state == Scan(StateOf(buf), data).state
    ensures Delivered(buf + data) == FramesOf(Scan(StateOf(buf), data).segments)
    ensures BufferShape(Buffer(Scan(StateOf(buf), data).state))
  {
    ScanBuffer(buf);
    ScanConcat(Outside, buf, data);
    ScanKeepsShape(StateOf(buf), data);
    assert [] + Scan(StateOf(buf), data).segments == Scan(StateOf(buf), data).segments;
  }

  lemma FirstFrame(frames: seq<Frame>, buf: Bytes, end: nat)
    requires 1 <= end < |buf| && buf[0] == FLAG && buf[end] == FLAG && FLAG !in buf[1..end]
    ensures var segment, rest := buf[1..end], buf[end + 1..];
            && Scan(Outside, buf).state == Scan(Outside, rest).state
            && frames + Delivered(buf)
            == (if segment == [] || ParseFrame(Unescape(segment)).None? then frames
                else frames + [ParseFrame(Unescape(segment)).value]) + Delivered(rest)
  {
    var segment, rest := buf[1..end], buf[end + 1..];
    ScanFirst(buf, end);
    if segment != [] {
      FramesOfConcat([segment], Scan(Outside, rest).segments);
      FramesOfOne(segment);
      assert ParseFrame(Unescape(segment)).None? ==> [] + Delivered(rest) == Delivered(rest);
      ConcatAssociates(frames, FramesOf([segment]), Delivered(rest));
    }
  }

  lemma ScanFirst(buf: Bytes, end: nat)
    requires 1 <= end < |buf| && buf[0] == FLAG && buf[end] == FLAG && FLAG !in buf[1..end]
    ensures var segment, rest := buf[1..end], Scan(Outside, buf[end + 1..]);
            Scan(Outside, buf) == if segment == [] then rest else Scanned(rest.state, [segment] + rest.segments)
  {
    var head := [FLAG] + buf[1..end] + [FLAG];
    assert buf == head + buf[end + 1..];
    ScanDelimited(buf[1..end]);
    ScanConcat(Outside, head, buf[end + 1..]);
    assert [] + Scan(Outside, buf[end + 1..]).segments == Scan(Outside, buf[end + 1..]).segments;
  }
}
