/** Authentication over whole runs: which sequences of messages leave a terminal authenticated. */
module SessionAuth {
  import opened Bytes
  import opened Session
  import opened MessageCodec
  import Location808
  import Params

  // ---- What a message must carry ----

  /** NUL bytes of padding. */
  function Zeros(n: nat): (z: Bytes)
    ensures |z| == n && forall i :: 0 <= i < n ==> z[i] == 0
  {
    seq(n, _ => 0)
  }

  /** The body is the code, padded with any number of NULs; a code that ends in NUL cannot be carried. */
  ghost predicate Carries(body: Bytes, code: Bytes) {
    && (code != [] ==> code[|code| - 1] != 0)
    && exists n: nat :: body == code + Zeros(n)
  }

  lemma {:induction false} StripPadding(code: Bytes, n: nat)
    requires code != [] ==> code[|code| - 1] != 0
    ensures StripZeros(code + Zeros(n)) == code
  {
    if n == 0 {
      assert code + Zeros(0) == code;
    } else {
      assert (code + Zeros(n))[..|code| + n - 1] == code + Zeros(n - 1);
      StripPadding(code, n - 1);
    }
  }

  lemma {:induction false} StripLeavesCode(body: Bytes)
    ensures Carries(body, StripZeros(body))
  {
    if body != [] && body[|body| - 1] == 0 {
      var rest := body[..|body| - 1];
      StripLeavesCode(rest);
      var n: nat :| rest == StripZeros(rest) + Zeros(n);
      assert body == StripZeros(rest) + Zeros(n + 1);
    } else {
      assert body == body + Zeros(0);
    }
  }

  /** Stripping the NULs finds the code exactly in the bodies that carry it. */
  lemma CarriesExact(body: Bytes, code: Bytes)
    ensures Carries(body, code) <==> StripZeros(body) == code
  {
    StripLeavesCode(body);
    if Carries(body, code) {
      var n: nat :| body == code + Zeros(n);
      StripPadding(code, n);
    }
  }

  // ---- Registrations and attempts ----

  /** A registration that reaches the table: it issues a code and revokes the authentication. */
  predicate Registers(e: Event, phone: string) {
    e.Receive? && e.msg.header.msgId == 0x0100 && e.msg.header.phone == phone && |e.msg.body| >= 50
  }

  predicate Attempts(e: Event, phone: string) {
    e.Receive? && e.msg.header.msgId == 0x0102 && e.msg.header.phone == phone
  }

  function CodeIn(terminals: map<string, Terminal>, phone: string): Option<Bytes> {
    if phone in terminals then terminals[phone].authCode else None
  }

  predicate Authenticated(s: State, phone: string) { phone in s.terminals && s.terminals[phone].authenticated }

  /** The code of the latest successful registration, or the one stored before the run. */
  function CurrentCode(s: State, events: seq<Event>, phone: string): Option<Bytes> {
    if events == [] then CodeIn(s.terminals, phone)
    else
      var e := events[|events| - 1];
      if Registers(e, phone) then Some(e.env.freshCode) else CurrentCode(s, events[..|events| - 1], phone)
  }

  /** The part of a step that concerns the terminal table. */
  function TerminalsAfter(terminals: map<string, Terminal>, e: Event): map<string, Terminal> {
    if !e.Receive? then terminals
    else
      var from := e.msg.header.phone;
      var t := Touched(terminals, from);
      if Registers(e, from) then t[from := Terminal(Some(e.env.freshCode), false)]
      else if Attempts(e, from) && t[from].authCode == Some(StripZeros(e.msg.body)) then
        t[from := t[from].(authenticated := true)]
      else t
  }

  lemma HandledTerminals(s: State, e: Event)
    requires e.Receive? && e.msg.header.phone in s.terminals
    ensures var from, t := e.msg.header.phone, s.terminals;
            Handled(s, e.msg, e.env).terminals
            == if Registers(e, from) then t[from := Terminal(Some(e.env.freshCode), false)]
               else if Attempts(e, from) && t[from].authCode == Some(StripZeros(e.msg.body)) then
                 t[from := t[from].(authenticated := true)]
               else t
  {
    hide Location808.LocationOf808, Params.ReadParams, Acked, StripZeros, WordAt;
  }

  lemma TerminalsStep(s: State, e: Event)
    ensures Next(s, e).terminals == TerminalsAfter(s.terminals, e)
  {
    hide Handled, AnswerTo, RequestedParams, NextSerial, StripZeros, Params.Packable, Registers, Attempts;
    if e.Receive? {
      var t := s.(online := s.online[e.msg.header.phone := e.writer]);
      HandledTerminals(t.(terminals := Touched(t.terminals, e.msg.header.phone)), e);
    }
  }

  /** The body carries the code, if there is one. */
  ghost predicate CarriesCurrent(body: Bytes, code: Option<Bytes>) { code.Some? && Carries(body, code.value) }

  lemma CarriesTheCode(s: State, e: Event)
    ensures e.Receive? ==>
              var code := CodeIn(s.terminals, e.msg.header.phone);
              CarriesCurrent(e.msg.body, code) <==> code == Some(StripZeros(e.msg.body))
  {
    hide StripZeros, Carries;
    if e.Receive? {
      var code := CodeIn(s.terminals, e.msg.header.phone);
      if code.Some? {
        CarriesExact(e.msg.body, code.value);
      }
    }
  }

  /** How one event changes the row of a phone. */
  lemma RowStep(s: State, e: Event, phone: string)
    ensures CodeIn(Next(s, e).terminals, phone)
         == if Registers(e, phone) then Some(e.env.freshCode) else CodeIn(s.terminals, phone)
    ensures Authenticated(Next(s, e), phone) <==>
            && !Registers(e, phone)
            && (|| Authenticated(s, phone)
                || (Attempts(e, phone) && CarriesCurrent(e.msg.body, CodeIn(s.terminals, phone))))
  {
    hide Next, StripZeros, Carries;
    TerminalsStep(s, e);
    CarriesTheCode(s, e);
  }

  lemma {:induction false} CodeOfRun(s: State, events: seq<Event>, phone: string)
    ensures CodeIn(Run(s, events).terminals, phone) == CurrentCode(s, events, phone)
  {
    if events != [] {
      var before := events[..|events| - 1];
      CodeOfRun(s, before, phone);
      RowStep(Run(s, before), events[|events| - 1], phone);
    }
  }

  /** Event k carries the code that was current when it arrived, and no later registration revoked it. */
  ghost predicate Authenticates(s: State, events: seq<Event>, phone: string, k: nat)
    requires k < |events|
  {
    && Attempts(events[k], phone)
    && CarriesCurrent(events[k].msg.body, CurrentCode(s, events[..k], phone))
    && forall j :: k < j < |events| ==> !Registers(events[j], phone)
  }

  lemma AuthenticatesEarlier(s: State, events: seq<Event>, phone: string, k: nat)
    requires events != [] && k < |events| - 1
    ensures var before := events[..|events| - 1];
            Authenticates(s, events, phone, k) <==>
            Authenticates(s, before, phone, k) && !Registers(events[|events| - 1], phone)
  {
    var before := events[..|events| - 1];
    assert before[..k] == events[..k];
    assert forall j :: 0 <= j < |before| ==> before[j] == events[j];
  }

  /** The phone was authenticated before the run, and no registration of the run revoked it. */
  ghost predicate StaysAuthenticated(s: State, events: seq<Event>, phone: string) {
    Authenticated(s, phone) && forall j :: 0 <= j < |events| ==> !Registers(events[j], phone)
  }

  lemma StaysEarlier(s: State, events: seq<Event>, phone: string)
    requires events != []
    ensures StaysAuthenticated(s, events, phone) <==>
            StaysAuthenticated(s, events[..|events| - 1], phone) && !Registers(events[|events| - 1], phone)
  {
    hide Authenticated, Registers;
    var before := events[..|events| - 1];
    assert forall j :: 0 <= j < |before| ==> before[j] == events[j];
  }

  /**
   A terminal is authenticated after a run exactly when some message of the run authenticates
   it, or it was before and is not revoked.
   */
  lemma {:induction false} AuthenticationSafety(s: State, events: seq<Event>, phone: string)
    ensures Authenticated(Run(s, events), phone)
       <==> || (exists k :: 0 <= k < |events| && Authenticates(s, events, phone, k))
            || StaysAuthenticated(s, events, phone)
  {
    hide Next, Attempts, Registers, Authenticated, StaysAuthenticated;
    if events == [] {
      assert StaysAuthenticated(s, events, phone) <==> Authenticated(s, phone) by {
        NothingRevoked(s, phone);
      }
    } else {
      var n := |events| - 1;
      var before, e := events[..n], events[n];
      AuthenticationSafety(s, before, phone);
      CodeOfRun(s, before, phone);
      RowStep(Run(s, before), e, phone);
      AttemptsOnly(e, phone);
      StaysEarlier(s, events, phone);
      if Authenticated(Run(s, events), phone) && !StaysAuthenticated(s, events, phone) {
        if Authenticated(Run(s, before), phone) {
          var k :| 0 <= k < n && Authenticates(s, before, phone, k);
          AuthenticatesEarlier(s, events, phone, k);
        } else {
          assert Authenticates(s, events, phone, n);
        }
      }
      if k :| 0 <= k < |events| && Authenticates(s, events, phone, k) {
        if k < n {
          AuthenticatesEarlier(s, events, phone, k);
        }
      }
    }
  }

  lemma NothingRevoked(s: State, phone: string)
    ensures StaysAuthenticated(s, [], phone) <==> Authenticated(s, phone)
  {
  }

  lemma AttemptsOnly(e: Event, phone: string)
    ensures Attempts(e, phone) ==> e.Receive? && !Registers(e, phone)
  {
  }

  /** Registrations are the only source of codes: the current one is the code of the last of them. */
  lemma {:induction false} CurrentCodeIsLatest(s: State, events: seq<Event>, phone: string, k: nat)
    requires k < |events| && Registers(events[k], phone)
    requires forall j :: k < j < |events| ==> !Registers(events[j], phone)
    ensures CurrentCode(s, events, phone) == Some(events[k].env.freshCode)
  {
    if k < |events| - 1 {
      CurrentCodeIsLatest(s, events[..|events| - 1], phone, k);
    }
  }

  /** The codes issued to a phone during the run differ from each other and from the one stored before it. */
  ghost predicate DistinctCodes(s: State, events: seq<Event>, phone: string) {
    && (forall i :: 0 <= i < |events| && Registers(events[i], phone) ==>
          CodeIn(s.terminals, phone) != Some(events[i].env.freshCode))
    && (forall i, j :: 0 <= i < j < |events| && Registers(events[i], phone) && Registers(events[j], phone) ==>
          events[i].env.freshCode != events[j].env.freshCode)
  }

  /** The last registration at or after index j. */
  lemma {:induction false} LastRegistration(events: seq<Event>, phone: string, j: nat) returns (k: nat)
    requires j < |events| && Registers(events[j], phone)
    ensures j <= k < |events| && Registers(events[k], phone)
    ensures forall i :: k < i < |events| ==> !Registers(events[i], phone)
    decreases |events| - j
  {
    if i :| j < i < |events| && Registers(events[i], phone) {
      k := LastRegistration(events, phone, i);
    } else {
      k := j;
    }
  }

  /** A current code was stored before the run or issued by a registration of it. */
  lemma {:induction false} CodeOrigin(s: State, events: seq<Event>, phone: string)
    ensures || CurrentCode(s, events, phone) == CodeIn(s.terminals, phone)
            || exists k :: 0 <= k < |events| && Registers(events[k], phone)
                           && CurrentCode(s, events, phone) == Some(events[k].env.freshCode)
  {
    if events != [] {
      var n := |events| - 1;
      if Registers(events[n], phone) {
        assert CurrentCode(s, events, phone) == Some(events[n].env.freshCode);
      } else {
        CodeOrigin(s, events[..n], phone);
        assert forall k :: 0 <= k < n ==> events[..n][k] == events[k];
      }
    }
  }

  /** A code that was current before event i, and that a registration from i on replaced, is not the current one. */
  lemma ReplacedCode(s: State, events: seq<Event>, phone: string, i: nat, j: nat)
    requires i <= j < |events| && Registers(events[j], phone) && DistinctCodes(s, events, phone)
    ensures CurrentCode(s, events, phone).Some?
    ensures CurrentCode(s, events, phone) != CurrentCode(s, events[..i], phone)
  {
    hide Registers, CurrentCode, CodeIn;
    var k := LastRegistration(events, phone, j);
    CurrentCodeIsLatest(s, events, phone, k);
    CodeOrigin(s, events[..i], phone);
    assert forall l :: 0 <= l < i ==> events[..i][l] == events[l];
  }

  /** The first message of a phone creates its row, and nothing removes one. */
  lemma {:induction false} KnownTerminals(s: State, events: seq<Event>, phone: string)
    ensures phone in Run(s, events).terminals
       <==> phone in s.terminals || exists k :: 0 <= k < |events| && ReceivedFrom(events[k], phone)
  {
    hide Next, ReceivedFrom;
    if events != [] {
      var n := |events| - 1;
      var before, e := events[..n], events[n];
      KnownTerminals(s, before, phone);
      RowCreated(Run(s, before), e, phone);
      assert forall k :: 0 <= k < n ==> before[k] == events[k];
    }
  }

  predicate ReceivedFrom(e: Event, phone: string) { e.Receive? && e.msg.header.phone == phone }

  lemma RowCreated(s: State, e: Event, phone: string)
    ensures phone in Next(s, e).terminals <==> phone in s.terminals || ReceivedFrom(e, phone)
  {
    hide Next, StripZeros, Registers, Attempts;
    TerminalsStep(s, e);
  }

  // ---- Answers ----

  /** The general response 0x8001: the serial and the identifier of the request, and the result. */
  function General(msg: Message, result: Byte): Answer {
    var serial, id := msg.header.serialNo, msg.header.msgId;
    Answer(0x8001, [serial / 256, serial % 256, id / 256, id % 256, result])
  }

  lemma GeneralIsAck(msg: Message, result: Byte)
    ensures PlatformAck(msg, result) == General(msg, result)
  {
    hide WordAt;
  }

  /** An attempt sets the flag and is answered 0 exactly if its body carries the stored code; otherwise 1. */
  lemma AttemptExact(s: State, e: Event, phone: string)
    requires Attempts(e, phone)
    ensures var carried := CarriesCurrent(e.msg.body, CodeIn(s.terminals, phone));
            && (Authenticated(Next(s, e), phone) <==> Authenticated(s, phone) || carried)
            && AnswerTo(s, e.msg, e.env) == Some(General(e.msg, if carried then 0 else 1))
  {
    hide Next, General, PlatformAck, CarriesCurrent, StripZeros;
    RowStep(s, e, phone);
    AttemptsOnly(e, phone);
    CarriesTheCode(s, e);
    GeneralIsAck(e.msg, 0);
    GeneralIsAck(e.msg, 1);
  }

  /** A body carries one code at most. */
  lemma CarriesOne(body: Bytes, a: Option<Bytes>, b: Option<Bytes>)
    requires CarriesCurrent(body, a) && CarriesCurrent(body, b)
    ensures a == b
  {
    CarriesExact(body, a.value);
    CarriesExact(body, b.value);
  }

  /** A code that a later registration replaced neither authenticates nor is answered with success. */
  lemma StaleCodeRefused(s: State, events: seq<Event>, phone: string, i: nat, j: nat, e: Event)
    requires i <= j < |events| && Registers(events[j], phone) && DistinctCodes(s, events, phone)
    requires Attempts(e, phone) && CarriesCurrent(e.msg.body, CurrentCode(s, events[..i], phone))
    ensures var t := Run(s, events);
            && Authenticated(Next(t, e), phone) == Authenticated(t, phone)
            && AnswerTo(t, e.msg, e.env) == Some(General(e.msg, 1))
  {
    hide Next, AnswerTo, Registers, CarriesCurrent, General;
    var t := Run(s, events);
    ReplacedCode(s, events, phone, i, j);
    CodeOfRun(s, events, phone);
    AttemptsOnly(e, phone);
    if CarriesCurrent(e.msg.body, CurrentCode(s, events, phone)) {
      CarriesOne(e.msg.body, CurrentCode(s, events, phone), CurrentCode(s, events[..i], phone));
    }
    AttemptExact(t, e, phone);
  }

  lemma RegistrationAnswer(s: State, msg: Message, env: Env)
    requires msg.header.msgId == 0x0100
    ensures var serial := msg.header.serialNo;
            AnswerTo(s, msg, env)
            == Some(Answer(0x8100, if |msg.body| < 50 then [serial / 256, serial % 256, 1]
                                   else [serial / 256, serial % 256, 0] + env.freshCode))
  {
    var serial := msg.header.serialNo;
    assert PackWord(serial) + [1] == [serial / 256, serial % 256, 1];
    assert PackWord(serial) + ([0] + env.freshCode) == [serial / 256, serial % 256, 0] + env.freshCode;
  }

  /** A registration whose body is too short changes neither code nor flag, and is answered with failure. */
  lemma MalformedRegistration(s: State, e: Event, phone: string)
    requires e.Receive? && e.msg.header.msgId == 0x0100 && |e.msg.body| < 50
    ensures CodeIn(Next(s, e).terminals, phone) == CodeIn(s.terminals, phone)
    ensures Authenticated(Next(s, e), phone) == Authenticated(s, phone)
    ensures var serial := e.msg.header.serialNo;
            AnswerTo(s, e.msg, e.env) == Some(Answer(0x8100, [serial / 256, serial % 256, 1]))
  {
    hide Next, AnswerTo;
    RowStep(s, e, phone);
    RegistrationAnswer(s, e.msg, e.env);
  }

  /** A successful registration revokes, and its answer carries the code that is then current. */
  lemma RegistrationRevokes(s: State, events: seq<Event>, e: Event, phone: string)
    requires Registers(e, phone)
    ensures !Authenticated(Next(Run(s, events), e), phone)
    ensures var serial, code := e.msg.header.serialNo, CurrentCode(s, events + [e], phone).value;
            AnswerTo(Run(s, events), e.msg, e.env) == Some(Answer(0x8100, [serial / 256, serial % 256, 0] + code))
  {
    hide Next, AnswerTo;
    RowStep(Run(s, events), e, phone);
    RegistrationAnswer(Run(s, events), e.msg, e.env);
    assert (events + [e])[|events|] == e;
  }

  /** Register, then authenticate with the issued code and any padding: the terminal is authenticated. */
  lemma RegisterThenAuthenticate(s: State, register: Event, attempt: Event, phone: string, n: nat)
    requires Registers(register, phone) && Attempts(attempt, phone)
    requires var code := register.env.freshCode;
             (code != [] ==> code[|code| - 1] != 0) && attempt.msg.body == code + Zeros(n)
    ensures Authenticated(Next(Next(s, register), attempt), phone)
    ensures AnswerTo(Next(s, register), attempt.msg, attempt.env) == Some(General(attempt.msg, 0))
  {
    hide Next, AnswerTo, General;
    RowStep(s, register, phone);
    AttemptExact(Next(s, register), attempt, phone);
  }
}
