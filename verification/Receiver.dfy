/** jt808/server.py: the coroutine of one connection, from the socket's chunks to the tables. */
module Receiver {
  import opened Bytes
  import opened MessageCodec
  import opened Session
  import opened SessionOnline
  import opened Interleaving
  import Extraction
  import Streams
  import opened Stuffing
  import Checksum

  /** The messages that are dispatched: rejected payloads are skipped, and a raising one ends the connection. */
  function Readable(payloads: seq<Bytes>): seq<Message> {
    if payloads == [] then []
    else
      match ParseMessage(payloads[0])
      case Parsed(msg) => [msg] + Readable(payloads[1..])
      case Rejected => Readable(payloads[1..])
      case Raised => []
  }

  predicate Raises(payloads: seq<Bytes>) {
    exists i :: 0 <= i < |payloads| && ParseMessage(payloads[i]).Raised?
  }

  lemma {:induction false} ReadableConcat(a: seq<Bytes>, b: seq<Bytes>)
    ensures Readable(a + b) == Readable(a) + (if Raises(a) then [] else Readable(b))
    ensures Raises(a + b) <==> Raises(a) || Raises(b)
  {
    hide ParseMessage;
    if a == [] {
      assert a + b == b;
    } else {
      assert (a + b)[1..] == a[1..] + b && (a + b)[0] == a[0];
      ReadableConcat(a[1..], b);
      RaisesFirst(a);
      RaisesFirst(a + b);
    }
  }

  lemma RaisesFirst(a: seq<Bytes>)
    requires a != []
    ensures Raises(a) <==> ParseMessage(a[0]).Raised? || Raises(a[1..])
  {
    hide ParseMessage;
    if i :| 0 <= i < |a| && ParseMessage(a[i]).Raised? {
      assert i > 0 ==> a[1..][i - 1] == a[i];
    }
    if i :| 0 <= i < |a[1..]| && ParseMessage(a[1..][i]).Raised? {
      assert a[i + 1] == a[1..][i];
    }
  }

  /** What a coroutine meets outside: its writer, fresh codes, the clock, and the others' steps at every await. */
  datatype Context = Context(writer: Writer, codes: nat -> Bytes, clock: nat -> Now, others: nat -> seq<Event>)

  ghost predicate Admissible(context: Context) {
    forall turn: nat :: AllHexEvents(context.others(turn))
  }

  /** What all others do during the first awaits. */
  function Turns(others: nat -> seq<Event>, turns: nat): seq<Event> {
    if turns == 0 then [] else Turns(others, turns - 1) + others(turns - 1)
  }

  /** The k-th event is the reception of the k-th message by this writer, with the k-th code and time. */
  predicate IsReception(e: Event, msg: Message, context: Context, k: nat) {
    && e.Receive? && e.msg == msg && e.writer == context.writer
    && e.env.freshCode == context.codes(k) && e.env.now == context.clock(k)
  }

  ghost predicate Receptions(events: seq<Event>, msgs: seq<Message>, context: Context) {
    && |events| == |msgs|
    && forall k :: 0 <= k < |events| ==> IsReception(events[k], msgs[k], context, k)
  }

  function LastPhone(events: seq<Event>): Option<string> {
    if events != [] && events[|events| - 1].Receive? then Some(events[|events| - 1].msg.header.phone) else None
  }

  /** The variables of the loops: what was written, whether to go on, and the phone of the last message. */
  datatype Loop = Loop(replies: seq<Bytes>, alive: bool, phone: Option<string>, count: nat, turn: nat)

  /** What holds after any number of payloads, if the tables were s at the start. */
  ghost predicate Progress(server: Server, s: State, context: Context, payloads: seq<Bytes>,
                           trace: seq<Step>, loop: Loop)
    reads server
  {
    && server.Valid() && AllPossible(trace)
    && server.Tables() == Run(s, EventsOf(trace))
    && Receptions(OwnOf(trace), Readable(payloads), context)
    && OthersOf(trace) == Turns(context.others, loop.turn)
    && loop.replies == Replies(s, trace)
    && (loop.alive <==> !Raises(payloads))
    && loop.phone == LastPhone(OwnOf(trace)) && loop.count == |OwnOf(trace)|
  }

  /** One await of the coroutine. */
  method Pause(server: Server, context: Context, loop: Loop,
               ghost s: State, ghost payloads: seq<Bytes>, ghost trace: seq<Step>)
    returns (next: Loop, ghost more: seq<Step>)
    requires Admissible(context) && Progress(server, s, context, payloads, trace, loop)
    modifies server
    ensures Progress(server, s, context, payloads, more, next)
    ensures next == loop.(turn := loop.turn + 1)
  {
    hide Run, Receptions, Replies, Readable, Raises, OwnOf, OthersOf, EventsOf;
    var others := context.others(loop.turn);
    Await(server, others);
    more := Taken(trace, others);
    AddOthers(s, trace, others);
    next := loop.(turn := loop.turn + 1);
  }

  lemma OneMoreReception(events: seq<Event>, msgs: seq<Message>, context: Context, e: Event, msg: Message)
    requires Receptions(events, msgs, context) && IsReception(e, msg, context, |events|)
    ensures Receptions(events + [e], msgs + [msg], context)
    ensures LastPhone(events + [e]) == Some(msg.header.phone)
  {
  }

  lemma OnePayload(payloads: seq<Bytes>, payload: Bytes)
    requires !Raises(payloads)
    ensures var parsed := ParseMessage(payload);
            Readable(payloads + [payload])
            == if parsed.Parsed? then Readable(payloads) + [parsed.msg] else Readable(payloads)
    ensures Raises(payloads + [payload]) <==> ParseMessage(payload).Raised?
  {
    hide ParseMessage;
    ReadableConcat(payloads, [payload]);
    assert [payload][1..] == [] && Readable([]) == [];
    RaisesFirst([payload]);
  }

  /** One payload: skipped, fatal, or registered, dispatched and answered. */
  method HandlePayload(server: Server, payload: Bytes, context: Context, loop: Loop,
                       ghost s: State, ghost payloads: seq<Bytes>, ghost trace: seq<Step>)
    returns (next: Loop, ghost more: seq<Step>)
    requires loop.alive && Progress(server, s, context, payloads, trace, loop)
    modifies server
    ensures Progress(server, s, context, payloads + [payload], more, next)
    ensures next.turn == loop.turn
    ensures next.alive <==> !ParseMessage(payload).Raised?
    ensures next.count == loop.count + (if ParseMessage(payload).Parsed? then 1 else 0)
  {
    hide Next, Dispatched, ReplyBytes, ParseMessage, Run, Receptions, Replies, Readable, Raises, OwnOf, OthersOf,
         EventsOf, AllPossible, LastPhone;
    next, more := loop, trace;
    OnePayload(payloads, payload);
    match ParseMessage(payload) {
      case Rejected =>
      case Raised =>
        next := next.(alive := false);
      case Parsed(msg) =>
        ParsedPhone(payload);
        ghost var t := server.Tables();
        server.Register(msg.header.phone, context.writer);
        var reply;
        ghost var pick;
        reply, pick := server.Dispatch(msg, context.codes(loop.count), context.clock(loop.count));
        ghost var e := Receive(msg, context.writer, Env(context.codes(loop.count), context.clock(loop.count), pick));
        ReceiveStep(t, msg, context.writer, e.env);
        AddStep(s, trace, Own(e));
        OneMoreReception(OwnOf(trace), Readable(payloads), context, e, msg);
        more := trace + [Own(e)];
        next := Loop(loop.replies + (if reply.Some? then [reply.value] else []), true, Some(msg.header.phone),
                     loop.count + 1, loop.turn);
    }
  }

  lemma ReceiveStep(s: State, msg: Message, writer: Writer, env: Env)
    ensures Next(s, Receive(msg, writer, env))
         == Dispatched(s.(online := s.online[msg.header.phone := writer]), msg, env)
  {
    hide Dispatched;
  }

  /** The payloads of one chunk, with an await after each; after a raising one the others are not read. */
  method HandlePayloads(server: Server, frames: seq<Bytes>, context: Context, start: Loop,
                        ghost s: State, ghost before: seq<Bytes>, ghost trace: seq<Step>)
    returns (loop: Loop, ghost more: seq<Step>)
    requires Admissible(context) && start.alive && Progress(server, s, context, before, trace, start)
    modifies server
    ensures Progress(server, s, context, before + frames, more, loop)
  {
    hide Progress, Readable, Raises;
    loop, more := start, trace;
    var i := 0;
    assert before + frames[..0] == before;
    while i < |frames| && loop.alive
      invariant 0 <= i <= |frames|
      invariant Progress(server, s, context, before + frames[..i], more, loop)
    {
      assert before + frames[..i + 1] == before + frames[..i] + [frames[i]];
      loop, more := HandlePayload(server, frames[i], context, loop, s, before + frames[..i], more);
      if loop.alive {
        loop, more := Pause(server, context, loop, s, before + frames[..i + 1], more);
      }
      i := i + 1;
    }
    assert frames[..|frames|] == frames;
    ProgressAtEnd(server, s, context, before, frames, i, more, loop);
  }

  lemma ProgressAtEnd(server: Server, s: State, context: Context, before: seq<Bytes>, frames: seq<Bytes>, i: nat,
                      trace: seq<Step>, loop: Loop)
    requires i <= |frames| && Progress(server, s, context, before + frames[..i], trace, loop)
    requires i < |frames| ==> !loop.alive
    ensures Progress(server, s, context, before + frames, trace, loop)
  {
    hide Receptions, Readable, Raises;
    RestUnread(before, frames, i);
    assert i == |frames| ==> frames[..i] == frames;
  }

  /**
   The whole connection, among any others. However its bytes are cut into chunks and whatever
   the others do at its awaits, the messages it dispatches are the readable payloads of the
   whole stream, every reply is written in order, and at the end the phone of the last message
   is dropped from the connection table. No entry is left for the closed writer exactly when it
   left none under another phone.
   */
  method HandleConnection(server: Server, context: Context, chunks: seq<Bytes>)
    returns (replies: seq<Bytes>, ghost trace: seq<Step>, turns: nat)
    requires server.Valid() && Admissible(context)
    modifies server
    ensures server.Valid() && AllPossible(trace)
    ensures var payloads := Extraction.Payloads(Extraction.Scan(Extraction.START, Concat(chunks)).segments);
            && Receptions(OwnOf(trace), Readable(payloads), context)
            && OthersOf(trace) == Turns(context.others, turns)
            && replies == Replies(old(server.Tables()), trace)
            && server.Tables() == (var t := Run(old(server.Tables()), EventsOf(trace));
                                   match LastPhone(OwnOf(trace))
                                   case None => t
                                   case Some(phone) => Next(t, Unregister(phone)))
    ensures old(Unconnected(server.Tables(), context.writer)) && OwnOf(trace) != [] ==>
              (Unconnected(server.Tables(), context.writer)
               <==> !LeavesEntry(EventsOf(trace), LastPhone(OwnOf(trace)).value, context.writer))
  {
    hide Progress, Next, Extraction.Scan, Extraction.Payloads, Readable, Raises, Receptions, Replies, EventsOf;
    ghost var s := server.Tables();
    var buf: Bytes := [];
    var loop := Loop([], true, None, 0, 0);
    ghost var seen, done: seq<Bytes> := [], [];
    trace := [];
    NothingScanned();
    NoProgress(server, s, context);
    var n := 0;
    while n < |chunks| && loop.alive
      invariant 0 <= n <= |chunks|
      invariant Concat(chunks) == seen + Concat(chunks[n..])
      invariant buf == Extraction.Buffer(Extraction.Scan(Extraction.START, seen).state)
      invariant done == Extraction.Payloads(Extraction.Scan(Extraction.START, seen).segments)
      invariant Progress(server, s, context, done, trace, loop)
    {
      loop, trace := Pause(server, context, loop, s, done, trace);
      Extraction.ReceiveStep(Extraction.START, seen, chunks, n);
      buf := buf + chunks[n];
      var frames;
      frames, buf := Extraction.ExtractFrames(buf);
      seen := seen + chunks[n];
      n := n + 1;
      loop, trace := HandlePayloads(server, frames, context, loop, s, done, trace);
      done := done + frames;
    }
    if loop.alive {
      loop, trace := Pause(server, context, loop, s, done, trace);
    }
    AllRead(server, s, context, seen, chunks, n, trace, loop);
    OwnHasPhone(trace);
    if loop.phone.Some? {
      server.UnregisterPhone(loop.phone.value);
      CleanExactly(s, EventsOf(trace), loop.phone.value, context.writer);
    }
    replies, turns := loop.replies, loop.turn;
  }

  /** No phone leads to the writer. */
  ghost predicate Unconnected(t: State, writer: Writer) { forall q :: !Leads(t, q, writer) }

  lemma CleanExactly(s: State, events: seq<Event>, phone: string, writer: Writer)
    ensures Unconnected(s, writer) ==>
              (Unconnected(Next(Run(s, events), Unregister(phone)), writer) <==> !LeavesEntry(events, phone, writer))
  {
    hide Next, Run, LeavesEntry;
    if Unconnected(s, writer) {
      assert forall q :: q in s.online ==> !Leads(s, q, writer);
      LeftBehind(s, events, phone, writer);
    }
  }

  lemma {:induction false} OwnHasPhone(trace: seq<Step>)
    requires AllPossible(trace)
    ensures OwnOf(trace) != [] ==> LastPhone(OwnOf(trace)).Some?
  {
    if trace != [] {
      OwnHasPhone(trace[..|trace| - 1]);
      assert Possible(trace[|trace| - 1]);
    }
  }

  lemma NoProgress(server: Server, s: State, context: Context)
    requires server.Valid() && server.Tables() == s
    ensures Progress(server, s, context, [], [], Loop([], true, None, 0, 0))
  {
  }

  /** At the end of the loop either every chunk was read or a payload raised, after which nothing counts. */
  lemma AllRead(server: Server, s: State, context: Context, seen: Bytes, chunks: seq<Bytes>, n: nat,
                trace: seq<Step>, loop: Loop)
    requires n <= |chunks| && Concat(chunks) == seen + Concat(chunks[n..])
    requires loop.alive ==> n == |chunks|
    requires var done := Extraction.Payloads(Extraction.Scan(Extraction.START, seen).segments);
             Progress(server, s, context, done, trace, loop)
    ensures server.Valid() && AllPossible(trace) && server.Tables() == Run(s, EventsOf(trace))
    ensures var payloads := Extraction.Payloads(Extraction.Scan(Extraction.START, Concat(chunks)).segments);
            Receptions(OwnOf(trace), Readable(payloads), context)
    ensures OthersOf(trace) == Turns(context.others, loop.turn) && loop.replies == Replies(s, trace)
    ensures loop.phone == LastPhone(OwnOf(trace))
  {
    hide Receptions, Extraction.Scan, Extraction.Payloads, Readable, Raises, Run;
    RestOfStream(seen, Concat(chunks[n..]));
  }

  lemma NothingScanned()
    ensures Extraction.Scan(Extraction.START, []) == Extraction.Scanned(Extraction.START, [])
    ensures Extraction.Payloads([]) == []
  {
  }

  /** After a raising payload the others of its chunk are not read. */
  lemma RestUnread(before: seq<Bytes>, frames: seq<Bytes>, i: nat)
    requires i <= |frames|
    requires i < |frames| ==> Raises(before + frames[..i])
    ensures Readable(before + frames) == Readable(before + frames[..i])
    ensures Raises(before + frames) <==> Raises(before + frames[..i])
  {
    assert before + frames == before + frames[..i] + frames[i..];
    ReadableConcat(before + frames[..i], frames[i..]);
  }

  /** Nor is anything after it. */
  lemma RestOfStream(seen: Bytes, rest: Bytes)
    ensures var a := Extraction.Payloads(Extraction.Scan(Extraction.START, seen).segments);
            var b := Extraction.Payloads(Extraction.Scan(Extraction.START, seen + rest).segments);
            (Raises(a) || rest == []) ==> Readable(b) == Readable(a)
  {
    var st := Extraction.Scan(Extraction.START, seen);
    var more := Extraction.Scan(st.state, rest);
    Extraction.ScanConcat(Extraction.START, seen, rest);
    Extraction.PayloadsConcat(st.segments, more.segments);
    ReadableConcat(Extraction.Payloads(st.segments), Extraction.Payloads(more.segments));
  }

  // ---- What becomes of a stream of built messages ----

  /** The message that the server should see. */
  function Expected(m: Streams.Outgoing): Message
    requires Streams.Sendable(m)
  {
    var header := Header(m.msgId, m.phone, m.serialNo, 0, 0, false, 0, 0);
    Message(Normalised(header, |m.body|), m.body, Checksum.Seal(Streams.Inner(m)))
  }

  function ExpectedAll(ms: seq<Streams.Outgoing>): (msgs: seq<Message>)
    requires Streams.AllSendable(ms)
    ensures |msgs| == |ms|
  {
    if ms == [] then []
    else
      assert Streams.Sendable(ms[0]);
      [Expected(ms[0])] + ExpectedAll(ms[1..])
  }

  lemma {:induction false} ReadableBuilt(ms: seq<Streams.Outgoing>)
    requires Streams.AllSendable(ms)
    ensures Readable(Extraction.Payloads(Streams.BuiltSegments(ms))) == ExpectedAll(ms)
  {
    hide ParseMessage, EncodeHeader;
    if ms != [] {
      assert Streams.Sendable(ms[0]);
      ReadableBuilt(ms[1..]);
      MessageRoundTrip(Header(ms[0].msgId, ms[0].phone, ms[0].serialNo, 0, 0, false, 0, 0), ms[0].body);
      var segments := Streams.BuiltSegments(ms);
      assert segments[1..] == Streams.BuiltSegments(ms[1..]);
      var payloads := Extraction.Payloads(segments);
      assert payloads[1..] == Extraction.Payloads(segments[1..]);
    }
  }

  /** With one flag between neighbours every message of a connection is dispatched. */
  lemma SharedFlagsDispatched(ms: seq<Streams.Outgoing>)
    requires Streams.AllSendable(ms)
    ensures var stream := [FLAG] + Streams.SharedTail(Streams.BuiltSegments(ms));
            Readable(Extraction.Payloads(Extraction.Scan(Extraction.START, stream).segments)) == ExpectedAll(ms)
  {
    Streams.BuiltIsSeparate(ms);
    Streams.ExtractShared(Streams.BuiltSegments(ms));
    ReadableBuilt(ms);
  }

  /** Framed one by one, as the builder does, only the first is: all of them exactly when there is at most one. */
  lemma OwnFlagsDispatched(ms: seq<Streams.Outgoing>)
    requires Streams.AllSendable(ms)
    ensures var scanned := Extraction.Scan(Extraction.START, Streams.BuiltStream(ms));
            var dispatched := Readable(Extraction.Payloads(scanned.segments));
            && dispatched == (if ms == [] then [] else [ExpectedAll(ms)[0]])
            && (dispatched == ExpectedAll(ms) <==> |ms| <= 1)
  {
    hide Readable, Expected, Extraction.Scan, Extraction.Payloads, Streams.Separate;
    Streams.BuiltIsSeparate(ms);
    Streams.ExtractSeparate(Streams.BuiltSegments(ms));
    if ms == [] {
      ReadableBuilt(ms);
    } else {
      assert Streams.Sendable(ms[0]);
      FirstOnly(ms);
      Streams.OnlyFirst(ExpectedAll(ms));
    }
  }

  lemma FirstOnly(ms: seq<Streams.Outgoing>)
    requires ms != [] && Streams.AllSendable(ms)
    ensures Readable(Extraction.Payloads([Streams.BuiltSegments(ms)[0]])) == [ExpectedAll(ms)[0]]
  {
    hide ParseMessage, Expected, Escape;
    assert Streams.Sendable(ms[0]);
    ReadableBuilt([ms[0]]);
    assert Streams.BuiltSegments([ms[0]][1..]) == [];
    assert ExpectedAll([ms[0]][1..]) == [];
  }
}
