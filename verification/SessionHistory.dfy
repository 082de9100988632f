/**
 Serials and acknowledgements over whole runs of one process: every draw of a phone is
 recorded with its purpose, and an acknowledgement is explained by the latest draw of its serial.
 */
module SessionHistory {
  import opened Bytes
  import opened Session
  import Bcd
  import Location808
  import MessageCodec
  import Params

  datatype Purpose = ForReply | ForQuery | ForCommand(row: nat)

  datatype Draw = Draw(serial: Word, purpose: Purpose)

  /** The draws of every phone, oldest first, and for every command row the index of its draw. */
  datatype History = History(draws: map<string, seq<Draw>>, drawOf: seq<nat>)

  function Draws(h: History, phone: string): seq<Draw> {
    if phone in h.draws then h.draws[phone] else []
  }

  /** The phone that an event draws a serial for, and why. */
  function DrawBy(s: State, e: Event): Option<(string, Purpose)> {
    match e
    case Receive(msg, _, _) =>
      if msg.header.msgId == 0x0001 || msg.header.msgId == 0x0104 then None
      else Some((msg.header.phone, ForReply))
    case SendControl(phone, _) =>
      if phone in s.online then Some((phone, ForCommand(|s.commands|))) else None
    case SetParams(phone, ecu, geofence) =>
      if phone in s.online && RequestedParams(ecu, geofence) != [] then Some((phone, ForCommand(|s.commands|)))
      else None
    case QueryParams(phone, _) => if phone in s.online then Some((phone, ForQuery)) else None
    case Unregister(_) => None
  }

  function Recorded(h: History, s: State, e: Event): History {
    match DrawBy(s, e)
    case None => h
    case Some((phone, purpose)) =>
      History(h.draws[phone := Draws(h, phone) + [Draw(NextSerial(s.serials, phone), purpose)]],
              if purpose.ForCommand? then h.drawOf + [|Draws(h, phone)|] else h.drawOf)
  }

  /** The start of a process: no serial drawn; the rows of earlier processes have no draw here. */
  function Start(s: State): History {
    History(map[], seq(|s.commands|, _ => 0))
  }

  function Traced(s: State, events: seq<Event>): History {
    if events == [] then Start(s)
    else
      var before := events[..|events| - 1];
      Recorded(Traced(s, before), Run(s, before), events[|events| - 1])
  }

  // ---- The invariant ----

  /** The k-th draw of a phone has serial k modulo 65536, and the counter stands at the last one. */
  ghost predicate PhoneInOrder(s: State, h: History, p: string) {
    && (if p in s.serials then s.serials[p] else 0) == |Draws(h, p)| % 0x1_0000
    && forall k :: 0 <= k < |Draws(h, p)| ==> Draws(h, p)[k].serial == (k + 1) % 0x1_0000
  }

  ghost predicate SerialsInOrder(s: State, h: History) {
    forall p: string :: PhoneInOrder(s, h, p)
  }

  /** The draw of row i is recorded, with its serial, as being for row i. */
  predicate RowRecorded(s: State, h: History, i: nat)
    requires i < |s.commands| == |h.drawOf|
  {
    var draws, k := Draws(h, s.commands[i].phone), h.drawOf[i];
    k < |draws| && draws[k] == Draw(s.commands[i].serial, ForCommand(i))
  }

  /** A draw for a command leads back to its row. */
  predicate DrawLeadsToRow(s: State, h: History, base: nat, p: string, k: nat)
    requires |s.commands| == |h.drawOf| && k < |Draws(h, p)|
  {
    var d := Draws(h, p)[k];
    d.purpose.ForCommand? ==>
      base <= d.purpose.row < |s.commands| && s.commands[d.purpose.row].phone == p && h.drawOf[d.purpose.row] == k
  }

  /** The rows below base come from earlier processes; every other row belongs to a draw of its phone. */
  ghost predicate Consistent(s: State, h: History, base: nat) {
    && base <= |s.commands| == |h.drawOf|
    && (forall i :: base <= i < |s.commands| ==> RowRecorded(s, h, i))
    && (forall p: string, k :: 0 <= k < |Draws(h, p)| ==> DrawLeadsToRow(s, h, base, p, k))
    && SerialsInOrder(s, h)
  }

  /** A process starts without counters, whatever the tables in the database hold. */
  predicate JustStarted(s: State) { s.serials == map[] }

  // ---- What every event keeps ----

  /** Rows are never removed or rewritten, and an acknowledged row stays as it is. */
  ghost predicate RowsKept(a: seq<Command>, b: seq<Command>) {
    && |a| <= |b|
    && forall i :: 0 <= i < |a| ==>
         && b[i].phone == a[i].phone && b[i].msgId == a[i].msgId && b[i].serial == a[i].serial
         && (a[i].acked ==> b[i] == a[i])
  }

  lemma CommandsStep(s: State, e: Event)
    ensures RowsKept(s.commands, Next(s, e).commands)
    ensures forall i :: 0 <= i < |s.commands| && Next(s, e).commands[i] != s.commands[i] ==>
              && e.Receive? && e.msg.header.msgId == 0x0001
              && s.commands[i].phone == e.msg.header.phone
              && |e.msg.body| >= 5 && s.commands[i].serial == WordAt(e.msg.body, 0)
              && Next(s, e).commands[i].acked && Next(s, e).commands[i].ackResult == Some(e.msg.body[4])
  {
    hide Location808.LocationOf808, Params.ReadParams, Touched, CodeMatches, RequestedParams, NextSerial, WordAt;
  }

  /** No run ever takes an acknowledgement back. */
  lemma {:induction false} AckedForever(s: State, events: seq<Event>)
    ensures RowsKept(s.commands, Run(s, events).commands)
  {
    if events != [] {
      var before := events[..|events| - 1];
      AckedForever(s, before);
      CommandsStep(Run(s, before), events[|events| - 1]);
    }
  }

  /** An event appends a row exactly when it draws for a command, with the serial drawn. */
  lemma NewRow(s: State, e: Event)
    ensures var t := Next(s, e);
            match DrawBy(s, e)
            case Some((phone, ForCommand(row))) =>
              && row == |s.commands| && |t.commands| == row + 1
              && t.commands[row].phone == phone && t.commands[row].serial == NextSerial(s.serials, phone)
              && !t.commands[row].acked
            case _ => |t.commands| == |s.commands|
  {
  }

  /** The counter moves exactly with the draws. */
  lemma CounterStep(s: State, e: Event)
    ensures Next(s, e).serials == match DrawBy(s, e)
                                  case None => s.serials
                                  case Some((phone, _)) => s.serials[phone := NextSerial(s.serials, phone)]
  {
    hide Location808.LocationOf808, Params.ReadParams, Touched, CodeMatches, RequestedParams, NextSerial, Acked;
  }

  lemma SerialsStep(s: State, h: History, e: Event)
    requires SerialsInOrder(s, h)
    ensures SerialsInOrder(Next(s, e), Recorded(h, s, e))
  {
    forall p: string
      ensures PhoneInOrder(Next(s, e), Recorded(h, s, e), p)
    {
      assert PhoneInOrder(s, h, p);
      PhoneStep(s, h, e, p);
    }
  }

  lemma PhoneStep(s: State, h: History, e: Event, p: string)
    requires PhoneInOrder(s, h, p)
    ensures PhoneInOrder(Next(s, e), Recorded(h, s, e), p)
  {
    hide Next, DrawBy;
    CounterStep(s, e);
    if DrawBy(s, e).Some? {
      if DrawBy(s, e).value.0 == p {
        OneFurther(|Draws(h, p)| + 1);
        assert NextSerial(s.serials, p) == (|Draws(h, p)| + 1) % 0x1_0000;
      } else {
        assert Draws(Recorded(h, s, e), p) == Draws(h, p);
      }
    }
  }

  lemma RowsStep(s: State, h: History, base: nat, e: Event, i: nat)
    requires Consistent(s, h, base) && base <= i < |Next(s, e).commands|
    requires |Next(s, e).commands| == |Recorded(h, s, e).drawOf|
    ensures RowRecorded(Next(s, e), Recorded(h, s, e), i)
  {
    hide Next, DrawBy;
    CommandsStep(s, e);
    NewRow(s, e);
    if i < |s.commands| {
      assert RowRecorded(s, h, i);
    }
  }

  lemma DrawsStep(s: State, h: History, base: nat, e: Event, p: string, k: nat)
    requires Consistent(s, h, base) && k < |Draws(Recorded(h, s, e), p)|
    requires |Next(s, e).commands| == |Recorded(h, s, e).drawOf|
    ensures DrawLeadsToRow(Next(s, e), Recorded(h, s, e), base, p, k)
  {
    hide Next, DrawBy;
    CommandsStep(s, e);
    NewRow(s, e);
    if k < |Draws(h, p)| {
      assert DrawLeadsToRow(s, h, base, p, k);
    }
  }

  lemma ConsistentStep(s: State, h: History, base: nat, e: Event)
    requires Consistent(s, h, base)
    ensures Consistent(Next(s, e), Recorded(h, s, e), base)
  {
    hide Next, DrawBy;
    var t, g := Next(s, e), Recorded(h, s, e);
    CommandsStep(s, e);
    NewRow(s, e);
    SerialsStep(s, h, e);
    forall i | base <= i < |t.commands|
      ensures RowRecorded(t, g, i)
    {
      RowsStep(s, h, base, e, i);
    }
    forall p: string, k | 0 <= k < |Draws(g, p)|
      ensures DrawLeadsToRow(t, g, base, p, k)
    {
      DrawsStep(s, h, base, e, p, k);
    }
  }

  lemma {:induction false} ConsistentRun(s: State, events: seq<Event>)
    requires JustStarted(s)
    ensures Consistent(Run(s, events), Traced(s, events), |s.commands|)
  {
    if events != [] {
      var before := events[..|events| - 1];
      ConsistentRun(s, before);
      ConsistentStep(Run(s, before), Traced(s, before), |s.commands|, events[|events| - 1]);
    }
  }

  // ---- Serials ----

  lemma {:induction false} SerialsRun(s: State, events: seq<Event>)
    requires JustStarted(s)
    ensures SerialsInOrder(Run(s, events), Traced(s, events))
  {
    if events != [] {
      var before := events[..|events| - 1];
      SerialsRun(s, before);
      SerialsStep(Run(s, before), Traced(s, before), events[|events| - 1]);
    }
  }

  /** Replies and commands of a phone share one sequence 1, 2, 3, ... modulo 65536. */
  lemma SerialsOfRun(s: State, events: seq<Event>, phone: string, k: nat)
    requires JustStarted(s) && k < |Draws(Traced(s, events), phone)|
    ensures Draws(Traced(s, events), phone)[k].serial == (k + 1) % 0x1_0000
  {
    SerialsRun(s, events);
    assert PhoneInOrder(Run(s, events), Traced(s, events), phone);
  }

  /** Two draws share a serial exactly when 65536 divides their distance, so no window of that many repeats one. */
  lemma SerialsRepeat(s: State, events: seq<Event>, phone: string, j: nat, k: nat)
    requires JustStarted(s) && j <= k < |Draws(Traced(s, events), phone)|
    ensures Draws(Traced(s, events), phone)[j].serial == Draws(Traced(s, events), phone)[k].serial
       <==> (k - j) % 0x1_0000 == 0
    ensures j < k < j + 0x1_0000 ==>
              Draws(Traced(s, events), phone)[j].serial != Draws(Traced(s, events), phone)[k].serial
  {
    hide Traced, Draws;
    SerialsOfRun(s, events, phone, j);
    SerialsOfRun(s, events, phone, k);
    SameRemainder(j + 1, k + 1);
    NoRemainder(k - j);
  }

  lemma NoRemainder(distance: nat)
    ensures 0 < distance < 0x1_0000 ==> distance % 0x1_0000 != 0
  {
  }

  lemma SameRemainder(a: nat, b: nat)
    requires a <= b
    ensures a % 0x1_0000 == b % 0x1_0000 <==> (b - a) % 0x1_0000 == 0
  {
  }

  // ---- Acknowledgements ----

  /** The index of the latest draw with a serial. */
  function LatestDraw(draws: seq<Draw>, serial: Word): (r: Option<nat>)
    ensures r.Some? ==> r.value < |draws| && draws[r.value].serial == serial
    ensures r.Some? ==> forall k :: r.value < k < |draws| ==> draws[k].serial != serial
    ensures r.None? ==> forall k :: 0 <= k < |draws| ==> draws[k].serial != serial
  {
    if draws == [] then None
    else if draws[|draws| - 1].serial == serial then Some(|draws| - 1)
    else LatestDraw(draws[..|draws| - 1], serial)
  }

  /** The row that an acknowledgement is meant for: that of the latest draw of the serial, if it was a command. */
  function Intended(h: History, phone: string, serial: Word): Option<nat> {
    match LatestDraw(Draws(h, phone), serial)
    case None => None
    case Some(k) =>
      match Draws(h, phone)[k].purpose
      case ForCommand(row) => Some(row)
      case _ => None
  }

  /** The log after an acknowledgement that reaches the intended row, and no other. */
  function AckIntended(s: State, h: History, phone: string, serial: Word, result: Byte): seq<Command> {
    match Intended(h, phone, serial)
    case Some(row) => if IsPending(s.commands, phone, serial, row) then Flipped(s.commands, row, result) else s.commands
    case None => s.commands
  }

  /** No pending row of the phone has this serial, except the intended one. */
  ghost predicate NoStaleRow(s: State, h: History, phone: string, serial: Word) {
    forall i: nat :: IsPending(s.commands, phone, serial, i) ==> Intended(h, phone, serial) == Some(i)
  }

  /** The acknowledgement does what is intended whatever row the database picks, exactly when there is no stale row. */
  lemma AckExact(s: State, h: History, phone: string, serial: Word, result: Byte)
    ensures (forall pick: nat ::
               Acked(s.commands, phone, serial, result, pick) == AckIntended(s, h, phone, serial, result))
       <==> NoStaleRow(s, h, phone, serial)
  {
    if NoStaleRow(s, h, phone, serial) {
      forall pick: nat
        ensures Acked(s.commands, phone, serial, result, pick) == AckIntended(s, h, phone, serial, result)
      {
        var row := PendingRow(s.commands, phone, serial, pick);
      }
    } else {
      var i: nat :| IsPending(s.commands, phone, serial, i) && Intended(h, phone, serial) != Some(i);
      StalePick(s, h, phone, serial, result, i);
    }
  }

  lemma StalePick(s: State, h: History, phone: string, serial: Word, result: Byte, i: nat)
    requires IsPending(s.commands, phone, serial, i) && Intended(h, phone, serial) != Some(i)
    ensures Acked(s.commands, phone, serial, result, i) != AckIntended(s, h, phone, serial, result)
  {
    assert Acked(s.commands, phone, serial, result, i)[i].acked;
    assert !AckIntended(s, h, phone, serial, result)[i].acked;
  }

  /** Every pending row of the phone belongs to one of its last 65536 draws, and none to an earlier process. */
  ghost predicate PendingInWindow(s: State, h: History, base: nat, phone: string) {
    forall i :: 0 <= i < |s.commands| && s.commands[i].phone == phone && !s.commands[i].acked ==>
      base <= i < |h.drawOf| && h.drawOf[i] + 0x1_0000 >= |Draws(h, phone)|
  }

  ghost predicate NoStaleRows(s: State, h: History, phone: string) {
    forall serial: Word :: NoStaleRow(s, h, phone, serial)
  }

  lemma WindowHasNoStaleRow(s: State, h: History, base: nat, phone: string, serial: Word)
    requires Consistent(s, h, base) && PendingInWindow(s, h, base, phone)
    ensures NoStaleRow(s, h, phone, serial)
  {
    assert PhoneInOrder(s, h, phone);
    forall i: nat | IsPending(s.commands, phone, serial, i)
      ensures Intended(h, phone, serial) == Some(i)
    {
      assert RowRecorded(s, h, i);
      var draws, k := Draws(h, phone), h.drawOf[i];
      var latest := LatestDraw(draws, serial);
      assert draws[k].serial == serial && latest.Some? && k <= latest.value;
      SameInWindow(k, latest.value);
    }
  }

  lemma SameInWindow(k: nat, l: nat)
    requires k <= l < k + 0x1_0000 && (k + 1) % 0x1_0000 == (l + 1) % 0x1_0000
    ensures k == l
  {
  }

  /** A row that is intended for its serial belongs to a draw of this process, and no later draw has the serial. */
  lemma IntendedInWindow(s: State, h: History, base: nat, phone: string, i: nat)
    requires Consistent(s, h, base) && i < |s.commands|
    requires Intended(h, phone, s.commands[i].serial) == Some(i)
    ensures base <= i && h.drawOf[i] + 0x1_0000 >= |Draws(h, phone)|
  {
    var draws := Draws(h, phone);
    var k := LatestDraw(draws, s.commands[i].serial).value;
    assert DrawLeadsToRow(s, h, base, phone, k);
    assert PhoneInOrder(s, h, phone);
    SerialAgain(s, h, phone, k);
  }

  lemma SerialAgain(s: State, h: History, phone: string, k: nat)
    requires PhoneInOrder(s, h, phone)
    ensures k + 0x1_0000 < |Draws(h, phone)| ==>
              Draws(h, phone)[k + 0x1_0000].serial == Draws(h, phone)[k].serial
  {
    SameRemainder(k + 1, k + 0x1_0000 + 1);
  }

  /** No row is stale for any serial exactly when all pending rows lie in the window. */
  lemma WindowExact(s: State, h: History, base: nat, phone: string)
    requires Consistent(s, h, base)
    ensures NoStaleRows(s, h, phone) <==> PendingInWindow(s, h, base, phone)
  {
    if NoStaleRows(s, h, phone) {
      forall i | 0 <= i < |s.commands| && s.commands[i].phone == phone && !s.commands[i].acked
        ensures base <= i && h.drawOf[i] + 0x1_0000 >= |Draws(h, phone)|
      {
        assert NoStaleRow(s, h, phone, s.commands[i].serial);
        assert IsPending(s.commands, phone, s.commands[i].serial, i);
        IntendedInWindow(s, h, base, phone, i);
      }
    }
    if PendingInWindow(s, h, base, phone) {
      forall serial: Word
        ensures NoStaleRow(s, h, phone, serial)
      {
        WindowHasNoStaleRow(s, h, base, phone, serial);
      }
    }
  }

  predicate IsAck(msg: MessageCodec.Message, phone: string) {
    msg.header.msgId == 0x0001 && msg.header.phone == phone && |msg.body| >= 5
  }

  /** Whatever acknowledgement of the phone arrives next, it flips the intended row if that is pending, and no other. */
  ghost predicate AcksReachIntended(t: State, h: History, phone: string) {
    forall msg: MessageCodec.Message, writer: Writer, env: Env :: IsAck(msg, phone) ==>
      Next(t, Receive(msg, writer, env)).commands == AckIntended(t, h, phone, WordAt(msg.body, 0), msg.body[4])
  }

  lemma AckStep(t: State, msg: MessageCodec.Message, writer: Writer, env: Env)
    requires IsAck(msg, msg.header.phone)
    ensures Next(t, Receive(msg, writer, env)).commands
         == Acked(t.commands, msg.header.phone, WordAt(msg.body, 0), msg.body[4], env.pick)
  {
    hide Acked, RegistrationParses, CodeMatches;
  }

  /** An acknowledgement of the serial, and what the database picks for it. */
  lemma AckOf(t: State, h: History, phone: string, serial: Word, pick: nat)
    requires AcksReachIntended(t, h, phone)
    ensures Acked(t.commands, phone, serial, 0, pick) == AckIntended(t, h, phone, serial, 0)
  {
    var header := MessageCodec.Header(0x0001, phone, 0, 5, 0, false, 0, 0);
    var msg := MessageCodec.Message(header, PackWord(serial) + [0, 0, 0], []);
    var now: Now := Bcd.DateTime(2000, 1, 1, 0, 0, 0);
    assert WordAt(msg.body, 0) == serial && msg.body[4] == 0;
    assert IsAck(msg, phone);
    AckStep(t, msg, 0, Env([], now, pick));
  }

  lemma AcksExact(t: State, h: History, phone: string)
    ensures AcksReachIntended(t, h, phone) <==> NoStaleRows(t, h, phone)
  {
    hide Next, Acked, AckIntended, NoStaleRow;
    if AcksReachIntended(t, h, phone) {
      forall serial: Word
        ensures NoStaleRow(t, h, phone, serial)
      {
        forall pick: nat
          ensures Acked(t.commands, phone, serial, 0, pick) == AckIntended(t, h, phone, serial, 0)
        {
          AckOf(t, h, phone, serial, pick);
        }
        AckExact(t, h, phone, serial, 0);
      }
    }
    if NoStaleRows(t, h, phone) {
      forall msg: MessageCodec.Message, writer: Writer, env: Env | IsAck(msg, phone)
        ensures Next(t, Receive(msg, writer, env)).commands
             == AckIntended(t, h, phone, WordAt(msg.body, 0), msg.body[4])
      {
        AckStep(t, msg, writer, env);
        assert NoStaleRow(t, h, phone, WordAt(msg.body, 0));
        AckExact(t, h, phone, WordAt(msg.body, 0), msg.body[4]);
      }
    }
  }

  /**
   Over whole runs of a process: every acknowledgement of the phone that may come next flips
   exactly the command that its serial was last drawn for, and none if that was a reply or a
   query, exactly when the phone's pending rows are all among its last 65536 draws.
   */
  lemma AckCorrect(s: State, events: seq<Event>, phone: string)
    requires JustStarted(s)
    ensures AcksReachIntended(Run(s, events), Traced(s, events), phone)
       <==> PendingInWindow(Run(s, events), Traced(s, events), |s.commands|, phone)
  {
    ConsistentRun(s, events);
    AcksExact(Run(s, events), Traced(s, events), phone);
    WindowExact(Run(s, events), Traced(s, events), |s.commands|, phone);
  }

  // ---- Why old rows must not be pending ----

  /** The first serial of a phone is drawn for the answer to a heartbeat. */
  lemma FirstBeat(s: State, beat: Event)
    requires JustStarted(s) && IsHeartbeat(beat)
    ensures var t, h := Run(s, [beat]), Traced(s, [beat]);
            && t.commands == s.commands
            && Draws(h, beat.msg.header.phone) == [Draw(1, ForReply)]
  {
    assert [beat][..0] == [];
    assert Run(s, []) == s && Traced(s, []) == Start(s);
  }

  /** A row that an earlier process left pending takes the acknowledgement of a reply of this one. */
  lemma LeftoverRowFlipped(s: State, beat: Event, ack: Event, i: nat)
    requires JustStarted(s) && IsHeartbeat(beat)
    requires ack.Receive? && IsAck(ack.msg, beat.msg.header.phone)
    requires WordAt(ack.msg.body, 0) == 1 && ack.env.pick == i
    requires IsPending(s.commands, beat.msg.header.phone, 1, i)
    ensures Intended(Traced(s, [beat]), beat.msg.header.phone, 1) == None
    ensures Next(Run(s, [beat]), ack).commands == Flipped(s.commands, i, ack.msg.body[4])
  {
    hide Next, Run, Traced;
    FirstBeat(s, beat);
    assert LatestDraw([Draw(1, ForReply)], 1) == Some(0);
    AckStep(Run(s, [beat]), ack.msg, ack.writer, ack.env);
  }

  // ---- Why the window is needed ----

  function Repeated(e: Event, n: nat): (events: seq<Event>)
    ensures |events| == n
  {
    if n == 0 then [] else Repeated(e, n - 1) + [e]
  }

  predicate IsHeartbeat(e: Event) { e.Receive? && e.msg.header.msgId == 0x0002 }

  /** Heartbeats advance the serial of their phone by one each and leave the log alone. */
  lemma {:induction false} BeatsAdvance(s: State, beat: Event, n: nat)
    requires IsHeartbeat(beat) && beat.msg.header.phone in s.online && beat.msg.header.phone in s.serials
    ensures var t, phone := Run(s, Repeated(beat, n)), beat.msg.header.phone;
            && phone in t.online && phone in t.serials
            && t.commands == s.commands
            && t.serials[phone] == (s.serials[phone] as nat + n) % 0x1_0000
    decreases n
  {
    hide Next;
    if n > 0 {
      BeatsAdvance(s, beat, n - 1);
      assert Repeated(beat, n)[..n - 1] == Repeated(beat, n - 1);
      BeatStep(Run(s, Repeated(beat, n - 1)), beat);
      OneFurther(s.serials[beat.msg.header.phone] as nat + n);
    }
  }

  lemma OneFurther(x: nat)
    requires x > 0
    ensures ((x - 1) % 0x1_0000 + 1) % 0x1_0000 == x % 0x1_0000
  {
  }

  lemma BeatStep(s: State, beat: Event)
    requires IsHeartbeat(beat) && beat.msg.header.phone in s.serials
    ensures var t, phone := Next(s, beat), beat.msg.header.phone;
            && phone in t.online && phone in t.serials
            && t.commands == s.commands && t.serials[phone] == (s.serials[phone] as nat + 1) % 0x1_0000
  {
  }

  lemma CommandStep(s: State, phone: string, word: Word)
    requires phone in s.online
    ensures var t := Next(s, SendControl(phone, word));
            && t.online == s.online && phone in t.serials && t.serials[phone] == NextSerial(s.serials, phone)
            && t.commands == s.commands + [Command(phone, 0x8105, t.serials[phone], false, None)]
  {
  }

  /** Two commands 65536 draws apart wait for the same serial, so the older one is stale. */
  lemma WrapAround(s: State, phone: string, word: Word, beat: Event)
    requires phone in s.online && IsHeartbeat(beat) && beat.msg.header.phone == phone
    ensures var command := SendControl(phone, word);
            var first := Next(s, command);
            var t := Next(Run(first, Repeated(beat, 0xFFFF)), command);
            var i, j := |s.commands|, |s.commands| + 1;
            && |t.commands| == |s.commands| + 2
            && IsPending(t.commands, phone, t.commands[j].serial, i)
            && IsPending(t.commands, phone, t.commands[j].serial, j)
  {
    hide Next;
    var command := SendControl(phone, word);
    var first := Next(s, command);
    CommandStep(s, phone, word);
    BeatsAdvance(first, beat, 0xFFFF);
    CommandStep(Run(first, Repeated(beat, 0xFFFF)), phone, word);
  }
}
