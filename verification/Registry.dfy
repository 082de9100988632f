/**
 core/server.py: the map from phone to connection that all connection coroutines share.
 The first part gives the operations and the coroutine of one connection cut at its awaits;
 the second proves safety over every interleaving of any number of such coroutines.
 */
module Registry {
  import opened Bytes
  import opened Connection

  const REGISTRATION: Word := 0x0100
  const AUTHENTICATION: Word := 0x0102
  const LOCATION: Word := 0x0200

  /** `if conn.phone:` */
  predicate HasPhone(phone: Option<string>) { phone.Some? && phone.value != "" }

  function Added<C>(m: map<string, C>, phone: Option<string>, c: C): map<string, C> {
    if HasPhone(phone) then m[phone.value := c] else m
  }

  /** Only a connection's own entry is removed. */
  function Removed<C(==)>(m: map<string, C>, phone: Option<string>, c: C): map<string, C> {
    if HasPhone(phone) && phone.value in m && m[phone.value] == c then m - {phone.value} else m
  }

  class ConnectionRegistry {
    var byPhone: map<string, TerminalConnection>

    constructor ()
      ensures byPhone == map[]
    {
      byPhone := map[];
    }

    method Add(conn: TerminalConnection)
      modifies this
      ensures byPhone == Added(old(byPhone), conn.phone, conn)
    {
      if HasPhone(conn.phone) {
        byPhone := byPhone[conn.phone.value := conn];
      }
    }

    method Remove(conn: TerminalConnection)
      modifies this
      ensures byPhone == Removed(old(byPhone), conn.phone, conn)
    {
      if HasPhone(conn.phone) {
        if conn.phone.value in byPhone && byPhone[conn.phone.value] == conn {
          byPhone := byPhone - {conn.phone.value};
        }
      }
    }

    method Get(phone: string) returns (conn: Option<TerminalConnection>)
      ensures conn == if phone in byPhone then Some(byPhone[phone]) else None
    {
      conn := if phone in byPhone then Some(byPhone[phone]) else None;
    }
  }

  // ---- One coroutine, cut at its awaits ----

  /** The parts of a frame that the registry depends on. */
  datatype Arrival = Arrival(msgId: Word, phone: string)

  /** `frame.phone and frame.phone != "000000000000"` */
  predicate RealPhone(phone: string) { phone != "" && phone != NO_PHONE }

  /** What the message handler leaves in `conn.phone` (core/handler.py). */
  function HandlerPhone(phone: Option<string>, f: Arrival): Option<string> {
    if f.msgId == REGISTRATION || f.msgId == AUTHENTICATION then Some(f.phone)
    else if f.msgId == LOCATION && !HasPhone(phone) then Some(f.phone)
    else phone
  }

  /** Where a coroutine waits; each step below runs up to the next await. */
  datatype Pc =
    | Reading
    | AddPending(f: Arrival)
    | RemovePending(f: Arrival)
    | PhonePending(f: Arrival)
    | HandlePending(f: Arrival)
    | Handling
    | Closing
    | Closed

  type ConnId = nat

  datatype Conn = Conn(phone: Option<string>, pc: Pc)

  datatype System = System(conns: map<ConnId, Conn>, reg: map<string, ConnId>)

  datatype Event =
    | Connect(c: ConnId)
    | Deliver(c: ConnId, f: Arrival)
    | Resume(c: ConnId)
    | Drop(c: ConnId)

  const INIT := System(map[], map[])

  /** A frame taken from the read chunk, up to the first await. */
  function Accept(conn: Conn, f: Arrival): Conn {
    if RealPhone(f.phone) && !HasPhone(conn.phone) then Conn(Some(f.phone), AddPending(f))
    else if RealPhone(f.phone) && conn.phone != Some(f.phone) then conn.(pc := RemovePending(f))
    else conn.(pc := HandlePending(f))
  }

  /** The connection and the registry after the coroutine of c has run to its next await. */
  function Advance(conn: Conn, reg: map<string, ConnId>, c: ConnId): (Conn, map<string, ConnId>) {
    match conn.pc
    case Reading => (conn, reg)
    case AddPending(f) => (conn.(pc := HandlePending(f)), Added(reg, conn.phone, c))
    case RemovePending(f) => (conn.(pc := PhonePending(f)), Removed(reg, conn.phone, c))
    case PhonePending(f) => (Conn(Some(f.phone), HandlePending(f)), reg)
    case HandlePending(f) => (Conn(HandlerPhone(conn.phone, f), Handling), reg)
    case Handling => (conn.(pc := Reading), Added(reg, conn.phone, c))
    case Closing => (conn.(pc := Closed), Removed(reg, conn.phone, c))
    case Closed => (conn, reg)
  }

  /** Events that do not apply to the state they meet change nothing. */
  function Step(s: System, e: Event): System {
    match e
    case Connect(c) =>
      if c in s.conns then s else s.(conns := s.conns[c := Conn(None, Reading)])
    case Deliver(c, f) =>
      if c in s.conns && s.conns[c].pc.Reading? then s.(conns := s.conns[c := Accept(s.conns[c], f)]) else s
    case Resume(c) =>
      if c in s.conns then
        var (conn, reg) := Advance(s.conns[c], s.reg, c);
        System(s.conns[c := conn], reg)
      else s
    case Drop(c) =>
      if c in s.conns && !s.conns[c].pc.Closed? then s.(conns := s.conns[c := s.conns[c].(pc := Closing)]) else s
  }

  function Run(s: System, events: seq<Event>): System
    decreases events
  {
    if events == [] then s else Run(Step(s, events[0]), events[1..])
  }

  /** A coroutine takes its next frame only after the one in hand, and none after its teardown. */
  lemma FramesInTurn(s: System, c: ConnId, e: Event)
    requires c in s.conns && e.c == c
    ensures e.Deliver? && !s.conns[c].pc.Reading? ==> Step(s, e) == s
    ensures e.Connect? || s.conns[c].pc.Closed? ==> Step(s, e) == s
    ensures e.Resume? && s.conns[c].pc.Reading? ==> Step(s, e) == s
  {
    assert s.conns[c := s.conns[c]] == s.conns;
  }

  // ---- Safety ----

  predicate Registered(s: System, c: ConnId) { exists p :: p in s.reg && s.reg[p] == c }

  /** Every entry leads to a connection that is not closed and carries that phone. */
  ghost predicate Safe(s: System) {
    forall p :: p in s.reg ==>
      && p != "" && s.reg[p] in s.conns
      && s.conns[s.reg[p]].phone == Some(p) && !s.conns[s.reg[p]].pc.Closed?
  }

  /** Between the removal under its old phone and the assignment of the new one a connection is not registered. */
  predicate ConnInv(s: System, c: ConnId)
    requires c in s.conns
  {
    s.conns[c].pc.PhonePending? ==> !Registered(s, c)
  }

  ghost predicate Inv(s: System) {
    Safe(s) && forall c :: c in s.conns ==> ConnInv(s, c)
  }

  /** What the handler must find for its write to `conn.phone` to be harmless. */
  predicate HarmlessWrite(s: System, c: ConnId, f: Arrival)
    requires c in s.conns
  {
    var phone := s.conns[c].phone;
    || (f.msgId != REGISTRATION && f.msgId != AUTHENTICATION)
    || phone == Some(f.phone)
    || !(phone.Some? && phone.value in s.reg && s.reg[phone.value] == c)
  }

  /** The event does not make a handler write a phone over that of a registered connection. */
  predicate Harmless(s: System, e: Event) {
    e.Resume? && e.c in s.conns && s.conns[e.c].pc.HandlePending? ==> HarmlessWrite(s, e.c, s.conns[e.c].pc.f)
  }

  ghost predicate AlwaysHarmless(s: System, events: seq<Event>)
    decreases events
  {
    events == [] || (Harmless(s, events[0]) && AlwaysHarmless(Step(s, events[0]), events[1..]))
  }

  /** Safe after every event. */
  ghost predicate AlwaysSafe(s: System, events: seq<Event>)
    decreases events
  {
    Safe(s) && (events == [] || AlwaysSafe(Step(s, events[0]), events[1..]))
  }

  /** The registry of every other connection is untouched, except where c has just registered itself. */
  lemma StepKeepsOthers(s: System, e: Event, p: string)
    requires p in s.reg && s.reg[p] != e.c
    ensures var t := Step(s, e);
            || (p in t.reg && t.reg[p] == s.reg[p])
            || (TakesOver(s, e, p) && p in t.reg && t.reg[p] == e.c)
  {
  }

  /** In particular neither a teardown nor a phone change of one connection evicts another. */
  lemma TeardownKeepsOthers(s: System, e: Event, p: string)
    requires p in s.reg && s.reg[p] != e.c
    requires !e.Resume? || (e.c in s.conns ==> !s.conns[e.c].pc.AddPending? && !s.conns[e.c].pc.Handling?)
    ensures p in Step(s, e).reg && Step(s, e).reg[p] == s.reg[p]
  {
    StepKeepsOthers(s, e, p);
  }

  /** The connection of the event is about to register itself under p. */
  predicate TakesOver(s: System, e: Event, p: string) {
    && e.Resume? && e.c in s.conns && p != ""
    && (s.conns[e.c].pc.AddPending? || s.conns[e.c].pc.Handling?) && s.conns[e.c].phone == Some(p)
  }

  predicate Leads(s: System, p: string, c: ConnId) { p in s.reg && s.reg[p] == c }

  /** Another connection takes p over, or its owner is about to remove its own entry. */
  predicate Loses(s: System, e: Event, owner: ConnId, p: string) {
    if e.c != owner then TakesOver(s, e, p)
    else
      && e.Resume? && owner in s.conns && p != "" && s.conns[owner].phone == Some(p)
      && (s.conns[owner].pc.RemovePending? || s.conns[owner].pc.Closing?)
  }

  /** One event takes an entry from its owner exactly then, whatever state it meets. */
  lemma LosesExact(s: System, e: Event, owner: ConnId, p: string)
    requires Leads(s, p, owner)
    ensures Leads(Step(s, e), p, owner) <==> !Loses(s, e, owner, p)
  {
  }

  ghost predicate NeverLoses(s: System, events: seq<Event>, owner: ConnId, p: string)
    decreases events
  {
    events == [] || (!Loses(s, events[0], owner, p) && NeverLoses(Step(s, events[0]), events[1..], owner, p))
  }

  /** p leads to its owner after every event. */
  ghost predicate AlwaysLeads(s: System, events: seq<Event>, owner: ConnId, p: string)
    decreases events
  {
    Leads(s, p, owner) && (events == [] || AlwaysLeads(Step(s, events[0]), events[1..], owner, p))
  }

  /** Over whole runs of any connections, the owner among them: the entry stays exactly as long as no event takes it. */
  lemma {:induction false} EntryExact(s: System, events: seq<Event>, owner: ConnId, p: string)
    requires Leads(s, p, owner)
    ensures AlwaysLeads(s, events, owner, p) <==> NeverLoses(s, events, owner, p)
    decreases events
  {
    hide Step, Loses, Leads;
    if events != [] {
      LosesExact(s, events[0], owner, p);
      if !Loses(s, events[0], owner, p) {
        EntryExact(Step(s, events[0]), events[1..], owner, p);
      }
    }
  }

  /** A frame on which a connection with phone p keeps that phone. */
  predicate Keeps(f: Arrival, p: string) {
    f.phone == p || (!RealPhone(f.phone) && f.msgId != REGISTRATION && f.msgId != AUTHENTICATION)
  }

  /** A connection that has phone p, and a frame in hand that does not change it. */
  predicate Settled(conn: Conn, p: string) {
    && conn.phone == Some(p)
    && match conn.pc
       case Reading => true
       case Handling => true
       case AddPending(f) => Keeps(f, p)
       case HandlePending(f) => Keeps(f, p)
       case _ => false
  }

  /** What the owner may meet without losing its phone: anything but a failure or a frame that changes it. */
  predicate Quiet(e: Event, p: string) {
    match e case Drop(_) => false case Deliver(_, f) => Keeps(f, p) case _ => true
  }

  lemma SettledStep(s: System, e: Event, owner: ConnId, p: string)
    requires owner in s.conns && Settled(s.conns[owner], p) && p != ""
    requires e.c == owner ==> Quiet(e, p)
    ensures owner in Step(s, e).conns && Settled(Step(s, e).conns[owner], p)
    ensures e.c == owner ==> !Loses(s, e, owner, p)
  {
  }

  /** The owner keeps working under p, and no other connection takes p over. */
  ghost predicate Undisturbed(s: System, events: seq<Event>, owner: ConnId, p: string)
    decreases events
  {
    events == []
    || (&& (if events[0].c == owner then Quiet(events[0], p) else !TakesOver(s, events[0], p))
        && Undisturbed(Step(s, events[0]), events[1..], owner, p))
  }

  /**
   So a newer connection that goes on working keeps its phone at every moment, while older
   ones change phones, fail and tear down in any order.
   */
  lemma {:induction false} EntryPersists(s: System, events: seq<Event>, owner: ConnId, p: string)
    requires Leads(s, p, owner) && p != "" && owner in s.conns && Settled(s.conns[owner], p)
    requires Undisturbed(s, events, owner, p)
    ensures AlwaysLeads(s, events, owner, p) && Leads(Run(s, events), p, owner)
    decreases events
  {
    hide Step, Quiet, Settled, TakesOver;
    if events != [] {
      SettledStep(s, events[0], owner, p);
      LosesExact(s, events[0], owner, p);
      EntryPersists(Step(s, events[0]), events[1..], owner, p);
    }
  }

  /** A connection without a phone that receives a real one has it two steps later, whoever had it before. */
  lemma NewcomerOwns(s: System, c: ConnId, f: Arrival)
    requires c in s.conns && s.conns[c].pc.Reading? && !HasPhone(s.conns[c].phone) && RealPhone(f.phone)
    ensures var t := Step(Step(s, Deliver(c, f)), Resume(c));
            Leads(t, f.phone, c) && c in t.conns && Settled(t.conns[c], f.phone)
  {
  }

  /** A connection that ran its teardown has no entry left. */
  lemma ClosedIsGone(s: System, c: ConnId)
    requires Safe(s) && c in s.conns && s.conns[c].pc.Closed?
    ensures !Registered(s, c)
  {
  }

  lemma OnePhoneEach(s: System, p: string, q: string)
    requires Safe(s) && p in s.reg && q in s.reg && s.reg[p] == s.reg[q]
    ensures p == q
  {
  }

  /** A harmless event keeps the registry safe, and a harmful one does not. */
  lemma SafeStepExact(s: System, e: Event)
    requires Inv(s)
    ensures Safe(Step(s, e)) <==> Harmless(s, e)
  {
    if e.Resume? && e.c in s.conns {
      if s.conns[e.c].pc.HandlePending? {
        HandlerWriteExact(s, e.c);
      } else {
        SafeResume(s, e.c);
      }
    }
  }

  /** In a safe state the handler's write to `conn.phone` keeps the registry safe exactly when it is harmless. */
  lemma HandlerWriteExact(s: System, c: ConnId)
    requires Safe(s) && c in s.conns && s.conns[c].pc.HandlePending?
    ensures Safe(Step(s, Resume(c))) <==> HarmlessWrite(s, c, s.conns[c].pc.f)
  {
    var f, phone, t := s.conns[c].pc.f, s.conns[c].phone, Step(s, Resume(c));
    if !HarmlessWrite(s, c, f) {
      assert phone.value in t.reg && t.conns[t.reg[phone.value]].phone != Some(phone.value);
    } else {
      forall p | p in t.reg
        ensures p != "" && t.reg[p] in t.conns && t.conns[t.reg[p]].phone == Some(p) && !t.conns[t.reg[p]].pc.Closed?
      {
        assert s.conns[s.reg[p]].phone == Some(p);
      }
    }
  }

  lemma SafeResume(s: System, c: ConnId)
    requires Inv(s) && c in s.conns && !s.conns[c].pc.HandlePending?
    ensures Safe(Step(s, Resume(c)))
  {
    assert ConnInv(s, c);
    var t := Step(s, Resume(c));
    forall p | p in t.reg
      ensures p != "" && t.reg[p] in t.conns && t.conns[t.reg[p]].phone == Some(p) && !t.conns[t.reg[p]].pc.Closed?
    {
      if t.reg[p] == c {
        assert p in s.reg && s.reg[p] == c ==> Registered(s, c) && s.conns[c].phone == Some(p);
      }
    }
  }

  lemma InvStep(s: System, e: Event)
    requires Inv(s) && Harmless(s, e)
    ensures Inv(Step(s, e))
  {
    var t := Step(s, e);
    SafeStepExact(s, e);
    forall c | c in t.conns
      ensures ConnInv(t, c)
    {
      if c in s.conns {
        assert ConnInv(s, c);
        if c == e.c {
          RemovedIsGone(s, e);
        } else {
          OtherStep(s, e, c);
        }
      }
    }
  }

  lemma OwnPhone(s: System, p: string)
    requires Safe(s) && p in s.reg
    ensures p != "" && s.reg[p] in s.conns && s.conns[s.reg[p]].phone == Some(p)
    ensures Registered(s, s.reg[p])
  {
  }

  /** A connection that waits to change its phone has no entry left. */
  lemma RemovedIsGone(s: System, e: Event)
    requires Inv(s) && e.c in s.conns
    ensures ConnInv(Step(s, e), e.c)
  {
    var c, t := e.c, Step(s, e);
    assert ConnInv(s, c);
    if t.conns[c].pc.PhonePending? {
      forall p | p in t.reg
        ensures t.reg[p] != c
      {
        assert p in s.reg && t.reg[p] == s.reg[p];
        OwnPhone(s, p);
      }
    }
  }

  /** No step of another connection registers c. */
  lemma OtherStep(s: System, e: Event, c: ConnId)
    requires c in s.conns && c != e.c && ConnInv(s, c)
    ensures ConnInv(Step(s, e), c)
  {
    var t := Step(s, e);
    assert t.conns[c] == s.conns[c];
    if Registered(t, c) {
      var p :| p in t.reg && t.reg[p] == c;
      assert p in s.reg && s.reg[p] == c;
    }
  }

  /** Over whole runs: the registry is safe after every event exactly when no event is harmful. */
  lemma {:induction false} SafetyExact(s: System, events: seq<Event>)
    requires Inv(s)
    ensures AlwaysSafe(s, events) <==> AlwaysHarmless(s, events)
    decreases events
  {
    if events != [] {
      SafeStepExact(s, events[0]);
      if Harmless(s, events[0]) {
        InvStep(s, events[0]);
        SafetyExact(Step(s, events[0]), events[1..]);
      }
    }
  }

  // ---- Real phones suffice ----

  predicate RealEvent(e: Event) { e.Deliver? ==> RealPhone(e.f.phone) }

  ghost predicate AllReal(events: seq<Event>) {
    forall i :: 0 <= i < |events| ==> RealEvent(events[i])
  }

  /** When the handler runs, the connection carries the phone of the frame. */
  predicate Matched(conn: Conn) {
    match conn.pc
    case AddPending(f) => conn.phone == Some(f.phone)
    case HandlePending(f) => conn.phone == Some(f.phone)
    case _ => true
  }

  ghost predicate AllMatched(s: System) {
    forall c :: c in s.conns ==> Matched(s.conns[c])
  }

  lemma {:induction false} RealIsHarmless(s: System, events: seq<Event>)
    requires AllMatched(s) && AllReal(events)
    ensures AlwaysHarmless(s, events)
    decreases events
  {
    if events != [] {
      assert RealEvent(events[0]);
      var t := Step(s, events[0]);
      forall c | c in t.conns
        ensures Matched(t.conns[c])
      {
        assert c in s.conns ==> Matched(s.conns[c]);
      }
      assert Harmless(s, events[0]) by {
        assert events[0].c in s.conns ==> Matched(s.conns[events[0].c]);
      }
      forall i | 0 <= i < |events[1..]|
        ensures RealEvent(events[1..][i])
      {
        assert RealEvent(events[i + 1]);
      }
      RealIsHarmless(t, events[1..]);
    }
  }

  /** Every interleaving of any number of connections whose frames carry real phones is safe throughout. */
  lemma RegistrySafety(events: seq<Event>)
    requires AllReal(events)
    ensures AlwaysSafe(INIT, events) && Safe(Run(INIT, events))
  {
    RealIsHarmless(INIT, events);
    SafetyExact(INIT, events);
    SafeAtEnd(INIT, events);
  }

  lemma {:induction false} SafeAtEnd(s: System, events: seq<Event>)
    requires AlwaysSafe(s, events)
    ensures Safe(Run(s, events))
    decreases events
  {
    if events != [] {
      SafeAtEnd(Step(s, events[0]), events[1..]);
    }
  }

  // ---- Why the phones must be real ----

  const ZERO_PHONE_RUN := [Deliver(0, Arrival(REGISTRATION, NO_PHONE)), Resume(0), Resume(0)]

  function HeartbeatRun(phone: string): seq<Event> {
    [Connect(0), Deliver(0, Arrival(0x0002, phone)), Resume(0), Resume(0), Resume(0)]
  }

  /** A heartbeat with a real phone registers the connection under it. */
  lemma Registering(phone: string)
    requires RealPhone(phone)
    ensures Run(INIT, HeartbeatRun(phone)) == System(map[0 := Conn(Some(phone), Reading)], map[phone := 0])
  {
    var beat := Arrival(0x0002, phone);
    var r := Resume(0);
    var s1 := System(map[0 := Conn(None, Reading)], map[]);
    var s2 := System(map[0 := Conn(Some(phone), AddPending(beat))], map[]);
    var s3 := System(map[0 := Conn(Some(phone), HandlePending(beat))], map[phone := 0]);
    var s4 := System(map[0 := Conn(Some(phone), Handling)], map[phone := 0]);
    var s5 := System(map[0 := Conn(Some(phone), Reading)], map[phone := 0]);
    RunOne(INIT, Connect(0), [Deliver(0, beat), r, r, r], s1);
    RunOne(s1, Deliver(0, beat), [r, r, r], s2);
    RunOne(s2, r, [r, r], s3);
    RunOne(s3, r, [r], s4);
    RunOne(s4, r, [], s5);
  }

  /** A registration with the all-zero phone then leaves the connection under two phones. */
  lemma ZeroPhoneRegistration(phone: string)
    requires RealPhone(phone)
    ensures var t := Run(INIT, HeartbeatRun(phone) + ZERO_PHONE_RUN);
            && t.reg == map[phone := 0, NO_PHONE := 0] && phone != NO_PHONE
            && !Safe(t)
  {
    hide Step, HeartbeatRun;
    Registering(phone);
    RunConcat(INIT, HeartbeatRun(phone), ZERO_PHONE_RUN);
    ZeroPhoneAfter(phone);
  }

  lemma ZeroPhoneAfter(phone: string)
    requires RealPhone(phone)
    ensures var t := Run(System(map[0 := Conn(Some(phone), Reading)], map[phone := 0]), ZERO_PHONE_RUN);
            && t.reg == map[phone := 0, NO_PHONE := 0]
            && !Safe(t)
  {
    var zero := Arrival(REGISTRATION, NO_PHONE);
    var r := Resume(0);
    var s := System(map[0 := Conn(Some(phone), Reading)], map[phone := 0]);
    var s1 := System(map[0 := Conn(Some(phone), HandlePending(zero))], map[phone := 0]);
    var s2 := System(map[0 := Conn(Some(NO_PHONE), Handling)], map[phone := 0]);
    var s3 := System(map[0 := Conn(Some(NO_PHONE), Reading)], map[phone := 0, NO_PHONE := 0]);
    RunOne(s, Deliver(0, zero), [r, r], s1);
    RunOne(s1, r, [r], s2);
    RunOne(s2, r, [], s3);
    assert phone in s3.reg && s3.conns[s3.reg[phone]].phone != Some(phone);
  }

  lemma {:induction false} RunConcat(s: System, a: seq<Event>, b: seq<Event>)
    ensures Run(s, a + b) == Run(Run(s, a), b)
    decreases a
  {
    if a == [] {
      assert a + b == b;
    } else {
      assert (a + b)[0] == a[0] && (a + b)[1..] == a[1..] + b;
      RunConcat(Step(s, a[0]), a[1..], b);
    }
  }

  lemma RunOne(s: System, e: Event, rest: seq<Event>, t: System)
    requires Step(s, e) == t
    ensures Run(s, [e] + rest) == Run(t, rest)
  {
  }

  // ---- One frame without interference ----

  /** The registry and the phone after a frame that no other coroutine interrupts. */
  function AfterFrame<C(==)>(m: map<string, C>, phone: Option<string>, c: C, f: Arrival)
    : (map<string, C>, Option<string>)
  {
    var changed := RealPhone(f.phone) && HasPhone(phone) && phone != Some(f.phone);
    var first := RealPhone(f.phone) && !HasPhone(phone);
    var m1 := if changed then Removed(m, phone, c) else m;
    var p1 := if changed || first then Some(f.phone) else phone;
    var p2 := HandlerPhone(p1, f);
    (Added(if first then Added(m1, p1, c) else m1, p2, c), p2)
  }

  /**
   In terms of the frame alone: a phone other than twelve zeros becomes the connection's, and so
   does any phone of a registration, of an authentication, or of a location report that finds none.
   */
  lemma PhoneAfterFrame<C>(m: map<string, C>, phone: Option<string>, c: C, f: Arrival)
    ensures AfterFrame(m, phone, c, f).1
         == if f.phone != "" && f.phone != "000000000000" then Some(f.phone)
            else if f.msgId == 0x0100 || f.msgId == 0x0102 then Some(f.phone)
            else if f.msgId == 0x0200 && (phone == None || phone == Some("")) then Some(f.phone)
            else phone
  {
  }

  /**
   Entry by entry: the new phone leads to the connection, its own entry under an old phone that a
   real one replaced is gone, and every other entry stays.
   */
  lemma RegistryAfterFrame<C>(m: map<string, C>, phone: Option<string>, c: C, f: Arrival, q: string)
    ensures var (after, newPhone) := AfterFrame(m, phone, c, f);
            if newPhone == Some(q) && q != "" then q in after && after[q] == c
            else if phone == Some(q) && q != "" && RealPhone(f.phone) && q in m && m[q] == c then q !in after
            else (q in after <==> q in m) && (q in m ==> after[q] == m[q])
  {
  }

  /** How many steps the coroutine takes for a frame. */
  function StepsFor(phone: Option<string>, f: Arrival): (n: nat)
    ensures 2 <= n <= 4
  {
    match Accept(Conn(phone, Reading), f).pc
    case AddPending(_) => 3
    case RemovePending(_) => 4
    case _ => 2
  }

  function Repeated(e: Event, n: nat): seq<Event> {
    if n == 0 then [] else [e] + Repeated(e, n - 1)
  }

  /** Resuming one coroutine from frame to frame computes exactly that. */
  lemma UninterruptedFrame(s: System, c: ConnId, f: Arrival)
    requires c in s.conns && s.conns[c].pc.Reading?
    ensures var phone := s.conns[c].phone;
            var t := Run(Step(s, Deliver(c, f)), Repeated(Resume(c), StepsFor(phone, f)));
            var after := AfterFrame(s.reg, phone, c, f);
            t == System(s.conns[c := Conn(after.1, Reading)], after.0)
  {
    var phone, r := s.conns[c].phone, Resume(c);
    var s0 := Step(s, Deliver(c, f));
    var s1 := Step(s0, r);
    var s2 := Step(s1, r);
    var s3 := Step(s2, r);
    var s4 := Step(s3, r);
    var n := StepsFor(phone, f);
    RunOne(s0, r, Repeated(r, n - 1), s1);
    assert Repeated(r, n - 1) == [r] + Repeated(r, n - 2);
    RunOne(s1, r, Repeated(r, n - 2), s2);
    if n >= 3 {
      assert Repeated(r, n - 2) == [r] + Repeated(r, n - 3);
      RunOne(s2, r, Repeated(r, n - 3), s3);
    }
    if n == 4 {
      assert Repeated(r, n - 3) == [r] + [];
      RunOne(s3, r, [], s4);
    }
    var after := AfterFrame(s.reg, phone, c, f);
    var end := if n == 2 then s2 else if n == 3 then s3 else s4;
    assert Run(end, []) == end;
    assert end.reg == after.0;
    assert end.conns == s.conns[c := Conn(after.1, Reading)];
  }
}
