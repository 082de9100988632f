/** Whole streams: which messages of a sender each assembler delivers, however the stream is cut. */
module Streams {
  import opened Bytes
  import opened Stuffing
  import opened FrameCodec
  import opened Connection
  import MessageCodec
  import Checksum
  import Assembly
  import Extraction
  import Bcd

  // ---- core/connection.py: frames with their own flags, and anything harmless in between ----

  /** What a sender, or a noisy line, may put on the stream. */
  datatype Item =
    | Sent(msgId: Word, body: Bytes, phone: string, serialNo: Word)
    | Noise(bytes: Bytes)
    | EmptyPair
    | Damaged(segment: Bytes)

  /** Twelve digits, letters among them in the lower case that the receiver writes. */
  predicate PhoneAsReceived(phone: string) {
    |phone| == 12 && Bcd.AllHex(phone) && Bcd.Recase(phone, false) == phone
  }

  ghost predicate WellFormed(item: Item) {
    match item
    case Sent(_, body, phone, _) => |body| < 1024 && PhoneAsReceived(phone)
    case Noise(bytes) => FLAG !in bytes
    case EmptyPair => true
    case Damaged(segment) => FLAG !in segment && segment != [] && ParseFrame(Unescape(segment)).None?
  }

  function Wire(item: Item): Bytes
    requires item.Sent? ==> Bcd.AllHex(item.phone)
  {
    match item
    case Sent(msgId, body, phone, serialNo) => BuildFrame(msgId, body, phone, serialNo)
    case Noise(bytes) => bytes
    case EmptyPair => [FLAG, FLAG]
    case Damaged(segment) => [FLAG] + segment + [FLAG]
  }

  ghost predicate AllWellFormed(items: seq<Item>) {
    forall i :: 0 <= i < |items| ==> WellFormed(items[i])
  }

  ghost function Stream(items: seq<Item>): Bytes
    requires AllWellFormed(items)
  {
    if items == [] then []
    else
      assert WellFormed(items[0]);
      Wire(items[0]) + Stream(items[1..])
  }

  /** The messages sent, in order. */
  function Messages(items: seq<Item>): seq<Frame> {
    if items == [] then []
    else
      match items[0]
      case Sent(msgId, body, phone, serialNo) =>
        [Frame(msgId, phone, serialNo, body, false, 0, 0)] + Messages(items[1..])
      case _ => Messages(items[1..])
  }

  lemma SentArrives(msgId: Word, body: Bytes, phone: string, serialNo: Word)
    requires |body| < 1024 && PhoneAsReceived(phone)
    ensures var segment := Segment(msgId, body, phone, serialNo);
            && segment != [] && FLAG !in segment
            && Assembly.FramesOf([segment]) == [Frame(msgId, phone, serialNo, body, false, 0, 0)]
  {
    ParseBuilt(msgId, body, phone, serialNo);
    BodyFits(msgId, body, phone, serialNo);
    Assembly.FramesOfOne(Segment(msgId, body, phone, serialNo));
  }

  lemma ScanItem(item: Item)
    requires WellFormed(item)
    ensures Assembly.Scan(Assembly.Outside, Wire(item)).state == Assembly.Outside
    ensures Assembly.FramesOf(Assembly.Scan(Assembly.Outside, Wire(item)).segments) == Messages([item])
  {
    match item
    case Sent(msgId, body, phone, serialNo) =>
      SentArrives(msgId, body, phone, serialNo);
      Assembly.ScanDelimited(Segment(msgId, body, phone, serialNo));
    case Noise(bytes) =>
      Assembly.ScanQuiet(Assembly.Outside, bytes);
    case EmptyPair =>
      Assembly.ScanDelimited([]);
      assert [FLAG] + [] + [FLAG] == Wire(item);
    case Damaged(segment) =>
      Assembly.ScanDelimited(segment);
      Assembly.FramesOfOne(segment);
  }

  /** Exactly the sent messages are delivered, in order, whatever stands between them. */
  lemma {:induction false} StreamIdentity(items: seq<Item>)
    requires AllWellFormed(items)
    ensures Assembly.Scan(Assembly.Outside, Stream(items)).state == Assembly.Outside
    ensures Assembly.FramesOf(Assembly.Scan(Assembly.Outside, Stream(items)).segments) == Messages(items)
  {
    if items != [] {
      assert WellFormed(items[0]);
      ScanItem(items[0]);
      StreamIdentity(items[1..]);
      StreamStep(Wire(items[0]), Stream(items[1..]));
      assert Messages(items) == Messages([items[0]]) + Messages(items[1..]) by {
        assert Messages([items[0]][1..]) == [];
      }
    }
  }

  lemma StreamStep(head: Bytes, tail: Bytes)
    requires Assembly.Scan(Assembly.Outside, head).state == Assembly.Outside
    ensures var first, rest := Assembly.Scan(Assembly.Outside, head), Assembly.Scan(Assembly.Outside, tail);
            var whole := Assembly.Scan(Assembly.Outside, head + tail);
            && whole.state == rest.state
            && Assembly.FramesOf(whole.segments) == Assembly.FramesOf(first.segments) + Assembly.FramesOf(rest.segments)
  {
    Assembly.ScanConcat(Assembly.Outside, head, tail);
    Assembly.FramesOfConcat(Assembly.Scan(Assembly.Outside, head).segments,
                            Assembly.Scan(Assembly.Outside, tail).segments);
  }

  /** End to end: build, concatenate with interference, cut anywhere, feed a fresh connection. */
  method Transmit(ghost items: seq<Item>, chunks: seq<Bytes>) returns (frames: seq<Frame>)
    requires AllWellFormed(items) && Concat(chunks) == Stream(items)
    ensures frames == Messages(items)
  {
    var conn := new TerminalConnection();
    frames := conn.FeedAll(chunks);
    StreamIdentity(items);
  }

  // ---- The two conventions for flags ----

  predicate Framable(p: Bytes) { p != [] && FLAG !in p }

  predicate AllFramable(ps: seq<Bytes>) { forall i :: 0 <= i < |ps| ==> Framable(ps[i]) }

  /** Every segment between flags of its own: F p1 F F p2 F ... */
  function Separate(ps: seq<Bytes>): Bytes {
    if ps == [] then [] else [FLAG] + ps[0] + [FLAG] + Separate(ps[1..])
  }

  /** One flag between neighbours, after a first flag: p1 F p2 F ... */
  function SharedTail(ps: seq<Bytes>): Bytes {
    if ps == [] then [] else ps[0] + [FLAG] + SharedTail(ps[1..])
  }

  /** The segments at the positions 0, 2, 4, ... */
  function EveryOther(ps: seq<Bytes>): (r: seq<Bytes>)
    ensures |r| == (|ps| + 1) / 2
    ensures forall i :: 0 <= i < |r| ==> r[i] == ps[2 * i]
  {
    if |ps| <= 1 then ps else [ps[0]] + EveryOther(ps[2..])
  }

  lemma {:induction false} FeedSeparate(ps: seq<Bytes>)
    requires AllFramable(ps)
    ensures Assembly.Scan(Assembly.Outside, Separate(ps)) == Assembly.Scanned(Assembly.Outside, ps)
  {
    if ps != [] {
      assert Framable(ps[0]);
      Assembly.ScanDelimited(ps[0]);
      var head := [FLAG] + ps[0] + [FLAG];
      Assembly.ScanConcat(Assembly.Outside, head, Separate(ps[1..]));
      FeedSeparate(ps[1..]);
      assert [ps[0]] + ps[1..] == ps;
    }
  }

  /** On shared flags feed sees every second segment only. */
  lemma {:induction false} FeedShared(ps: seq<Bytes>)
    requires AllFramable(ps)
    ensures Assembly.Scan(Assembly.Outside, [FLAG] + SharedTail(ps)).segments == EveryOther(ps)
    ensures Assembly.Scan(Assembly.Outside, [FLAG] + SharedTail(ps)).segments == ps <==> |ps| <= 1
  {
    if ps == [] {
      Assembly.ScanFlag(Assembly.Outside);
      assert [FLAG] + SharedTail(ps) == [FLAG];
    } else if |ps| == 1 {
      assert Framable(ps[0]);
      Assembly.ScanDelimited(ps[0]);
      assert ps == [ps[0]] && SharedTail(ps[1..]) == [];
      assert [FLAG] + SharedTail(ps) == [FLAG] + ps[0] + [FLAG];
    } else {
      assert Framable(ps[0]) && Framable(ps[1]);
      FeedShared(ps[2..]);
      assert ps[1..][1..] == ps[2..];
      FeedSharedPair(ps[0], ps[1], SharedTail(ps[2..]));
      assert [FLAG] + SharedTail(ps) == [FLAG] + ps[0] + [FLAG] + (ps[1] + ([FLAG] + SharedTail(ps[2..])));
    }
  }

  /** The flag that feed consumed is missing as an opening flag, so the next segment is noise. */
  lemma FeedSharedPair(p: Bytes, q: Bytes, rest: Bytes)
    requires Framable(p) && FLAG !in q
    ensures Assembly.Scan(Assembly.Outside, [FLAG] + p + [FLAG] + (q + ([FLAG] + rest))).segments
         == [p] + Assembly.Scan(Assembly.Outside, [FLAG] + rest).segments
  {
    Assembly.ScanDelimited(p);
    Assembly.ScanConcat(Assembly.Outside, [FLAG] + p + [FLAG], q + ([FLAG] + rest));
    Assembly.ScanQuiet(Assembly.Outside, q);
    Assembly.ScanConcat(Assembly.Outside, q, [FLAG] + rest);
    var segments := Assembly.Scan(Assembly.Outside, [FLAG] + rest).segments;
    assert [] + segments == segments;
  }

  /** On shared flags extract_frames delivers every segment and keeps the last flag. */
  lemma {:induction false} ExtractSharedTail(ps: seq<Bytes>)
    requires AllFramable(ps)
    ensures Extraction.Scan(Extraction.In([]), SharedTail(ps)) == Extraction.Scanned(Extraction.In([]), ps)
  {
    if ps != [] {
      assert Framable(ps[0]);
      Extraction.ScanToFlag(Extraction.In([]), ps[0]);
      assert [] + ps[0] == ps[0];
      Extraction.ScanConcat(Extraction.In([]), ps[0] + [FLAG], SharedTail(ps[1..]));
      ExtractSharedTail(ps[1..]);
      assert [ps[0]] + ps[1..] == ps;
    }
  }

  lemma ExtractShared(ps: seq<Bytes>)
    requires AllFramable(ps)
    ensures Extraction.Scan(Extraction.START, [FLAG] + SharedTail(ps)) == Extraction.Scanned(Extraction.In([]), ps)
  {
    Extraction.ScanFlag(Extraction.START);
    Extraction.ScanConcat(Extraction.START, [FLAG], SharedTail(ps));
    ExtractSharedTail(ps);
    assert [] + ps == ps;
  }

  /** After a closing flag was kept, a segment with flags of its own is lost: its opening flag cancels the kept one. */
  lemma {:induction false} ExtractSeparateTail(ps: seq<Bytes>)
    requires AllFramable(ps)
    ensures Extraction.Scan(Extraction.In([]), Separate(ps)) == Extraction.Scanned(Extraction.In([]), [])
  {
    if ps != [] {
      assert Framable(ps[0]);
      Extraction.ScanFlag(Extraction.In([]));
      Extraction.ScanToFlag(Extraction.START, ps[0]);
      Extraction.ScanConcat(Extraction.In([]), [FLAG], ps[0] + [FLAG]);
      var head := [FLAG] + (ps[0] + [FLAG]);
      assert head + Separate(ps[1..]) == Separate(ps);
      Extraction.ScanConcat(Extraction.In([]), head, Separate(ps[1..]));
      ExtractSeparateTail(ps[1..]);
    }
  }

  /** Of separately delimited segments extract_frames delivers the first only: all exactly when there is at most one. */
  lemma ExtractSeparate(ps: seq<Bytes>)
    requires AllFramable(ps)
    ensures Extraction.Scan(Extraction.START, Separate(ps)).segments == if ps == [] then [] else [ps[0]]
    ensures Extraction.Scan(Extraction.START, Separate(ps)).segments == ps <==> |ps| <= 1
  {
    if ps != [] {
      assert Framable(ps[0]);
      ExtractOne(ps[0]);
      Extraction.ScanConcat(Extraction.START, [FLAG] + ps[0] + [FLAG], Separate(ps[1..]));
      ExtractSeparateTail(ps[1..]);
      assert Extraction.Scan(Extraction.START, Separate(ps)).segments == [ps[0]] + [] == [ps[0]];
      OnlyFirst(ps);
    }
  }

  lemma OnlyFirst<T>(ps: seq<T>)
    requires ps != []
    ensures [ps[0]] == ps <==> |ps| == 1
  {
  }

  lemma ExtractOne(p: Bytes)
    requires Framable(p)
    ensures Extraction.Scan(Extraction.START, [FLAG] + p + [FLAG]) == Extraction.Scanned(Extraction.In([]), [p])
  {
    assert AllFramable([p]);
    ExtractShared([p]);
    assert SharedTail([p]) == p + [FLAG] by {
      assert SharedTail([p][1..]) == [];
    }
    assert [FLAG] + p + [FLAG] == [FLAG] + SharedTail([p]);
  }

  // ---- jt808: what the server receives of what the same module's builder sends ----

  datatype Outgoing = Outgoing(msgId: Word, phone: string, serialNo: Word, body: Bytes)

  predicate Sendable(m: Outgoing) { |m.phone| <= 12 && Bcd.AllHex(m.phone) }

  predicate AllSendable(ms: seq<Outgoing>) { forall i :: 0 <= i < |ms| ==> Sendable(ms[i]) }

  function Inner(m: Outgoing): Bytes
    requires Sendable(m)
  {
    MessageCodec.EncodeHeader(MessageCodec.Header(m.msgId, m.phone, m.serialNo, 0, 0, false, 0, 0), |m.body|) + m.body
  }

  function BuiltStream(ms: seq<Outgoing>): Bytes
    requires AllSendable(ms)
  {
    if ms == [] then []
    else
      assert Sendable(ms[0]);
      MessageCodec.BuildMessage(ms[0].msgId, ms[0].phone, ms[0].serialNo, ms[0].body) + BuiltStream(ms[1..])
  }

  function BuiltSegments(ms: seq<Outgoing>): (ps: seq<Bytes>)
    requires AllSendable(ms)
    ensures |ps| == |ms|
  {
    if ms == [] then []
    else
      assert Sendable(ms[0]);
      [Escape(Checksum.Seal(Inner(ms[0])))] + BuiltSegments(ms[1..])
  }

  lemma {:induction false} BuiltIsSeparate(ms: seq<Outgoing>)
    requires AllSendable(ms)
    ensures AllFramable(BuiltSegments(ms)) && BuiltStream(ms) == Separate(BuiltSegments(ms))
  {
    if ms != [] {
      assert Sendable(ms[0]);
      BuiltIsSeparate(ms[1..]);
      StuffingRoundTrip(Checksum.Seal(Inner(ms[0])));
      var ps := BuiltSegments(ms);
      assert ps[1..] == BuiltSegments(ms[1..]);
      forall i | 0 <= i < |ps|
        ensures Framable(ps[i])
      {
        if i > 0 {
          assert Framable(ps[1..][i - 1]);
        }
      }
    }
  }

  /**
   Messages written back to back, as the builder frames them, reach jt808/server.py only
   up to the first one, however they are cut into chunks.
   */
  method ReceiveBuilt(ghost ms: seq<Outgoing>, chunks: seq<Bytes>) returns (payloads: seq<Bytes>, buf: Bytes)
    requires AllSendable(ms) && Concat(chunks) == BuiltStream(ms)
    ensures payloads == if ms == [] then [] else [Checksum.Seal(Inner(ms[0]))]
    ensures |payloads| == |ms| <==> |ms| <= 1
  {
    payloads, buf := Extraction.ReceiveAll([], chunks, Extraction.START);
    BuiltIsSeparate(ms);
    ExtractSeparate(BuiltSegments(ms));
    if ms != [] {
      assert Sendable(ms[0]);
      StuffingRoundTrip(Checksum.Seal(Inner(ms[0])));
      assert Extraction.Payloads([BuiltSegments(ms)[0]][1..]) == [];
    }
  }
}
