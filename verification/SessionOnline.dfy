/**
 The connection table of jt808/handlers.py over whole runs. Receptions of a phone set its
 entry and `unregister` removes it by phone alone, so the counterpart of the registry's
 safety fails here; the lemmas say exactly when.
 */
module SessionOnline {
  import opened Bytes
  import opened Session
  import Location808
  import MessageCodec
  import Params

  predicate Leads(s: State, p: string, w: Writer) { p in s.online && s.online[p] == w }

  /** The event sets or removes the entry of p. */
  predicate Concerns(e: Event, p: string) {
    match e
    case Receive(msg, _, _) => msg.header.phone == p
    case Unregister(phone) => phone == p
    case _ => false
  }

  /** The event leaves p leading to w: a reception by w of any message but 0x0003. */
  predicate Sets(e: Event, p: string, w: Writer) {
    e.Receive? && e.msg.header.phone == p && e.msg.header.msgId != 0x0003 && e.writer == w
  }

  /** The part of a step that concerns the connection table. */
  function OnlineAfter(online: map<string, Writer>, e: Event): map<string, Writer> {
    match e
    case Receive(msg, writer, _) =>
      var phone := msg.header.phone;
      if msg.header.msgId == 0x0003 then online[phone := writer] - {phone} else online[phone := writer]
    case Unregister(phone) => online - {phone}
    case _ => online
  }

  lemma HandledOnline(s: State, msg: MessageCodec.Message, env: Env)
    ensures Handled(s, msg, env).online
         == if msg.header.msgId == 0x0003 then s.online - {msg.header.phone} else s.online
  {
    hide Location808.LocationOf808, Params.ReadParams, Acked, StripZeros;
  }

  lemma OnlineStep(s: State, e: Event)
    ensures Next(s, e).online == OnlineAfter(s.online, e)
  {
    hide Handled, AnswerTo, RequestedParams, NextSerial, Params.Packable, Touched;
    if e.Receive? {
      var t := s.(online := s.online[e.msg.header.phone := e.writer]);
      HandledOnline(t.(terminals := Touched(t.terminals, e.msg.header.phone)), e.msg, e.env);
    }
  }

  lemma LeadsStep(s: State, e: Event, p: string, w: Writer)
    ensures Leads(Next(s, e), p, w) <==> Sets(e, p, w) || (Leads(s, p, w) && !Concerns(e, p))
  {
    hide Next;
    OnlineStep(s, e);
  }

  /** Event k sets the entry of p to w, and none after it concerns p. */
  ghost predicate SetLast(events: seq<Event>, p: string, w: Writer, k: nat)
    requires k < |events|
  {
    Sets(events[k], p, w) && forall j :: k < j < |events| ==> !Concerns(events[j], p)
  }

  ghost predicate NeverConcerned(events: seq<Event>, p: string) {
    forall j :: 0 <= j < |events| ==> !Concerns(events[j], p)
  }

  lemma SetLastEarlier(events: seq<Event>, p: string, w: Writer, k: nat)
    requires k < |events| - 1
    ensures SetLast(events, p, w, k) <==>
            SetLast(events[..|events| - 1], p, w, k) && !Concerns(events[|events| - 1], p)
  {
    hide Sets, Concerns;
    var before := events[..|events| - 1];
    assert forall j :: 0 <= j < |before| ==> before[j] == events[j];
  }

  lemma NeverEarlier(events: seq<Event>, p: string)
    requires events != []
    ensures NeverConcerned(events, p) <==>
            NeverConcerned(events[..|events| - 1], p) && !Concerns(events[|events| - 1], p)
  {
    hide Concerns;
    var before := events[..|events| - 1];
    assert forall j :: 0 <= j < |before| ==> before[j] == events[j];
  }

  /** After a run p leads to w exactly when the last event that concerns p is a reception by w other than 0x0003. */
  lemma {:induction false} OnlineExact(s: State, events: seq<Event>, p: string, w: Writer)
    ensures Leads(Run(s, events), p, w)
       <==> || (exists k :: 0 <= k < |events| && SetLast(events, p, w, k))
            || (Leads(s, p, w) && NeverConcerned(events, p))
  {
    hide Next, Sets, Concerns, Leads;
    if events != [] {
      var n := |events| - 1;
      var before, e := events[..n], events[n];
      OnlineExact(s, before, p, w);
      LeadsStep(Run(s, before), e, p, w);
      NeverEarlier(events, p);
      if Sets(e, p, w) {
        assert SetLast(events, p, w, n);
      }
      if k :| 0 <= k < n && SetLast(before, p, w, k) {
        SetLastEarlier(events, p, w, k);
      }
      if k :| 0 <= k < |events| && SetLast(events, p, w, k) {
        if k < n {
          SetLastEarlier(events, p, w, k);
        }
      }
    }
  }

  // ---- Teardown ----

  /** `unregister` spares the entries of all other writers exactly when the phone's entry is absent or one's own. */
  lemma UnregisterExact(s: State, phone: string, own: Writer)
    ensures (forall q :: q in s.online && s.online[q] != own ==> Leads(Next(s, Unregister(phone)), q, s.online[q]))
       <==> (phone in s.online ==> s.online[phone] == own)
  {
    assert phone !in Next(s, Unregister(phone)).online;
  }

  /** The last event that concerns the phone is a reception by a connection other than own. */
  ghost predicate LastSetByOther(events: seq<Event>, phone: string, own: Writer) {
    exists k, w :: 0 <= k < |events| && w != own && SetLast(events, phone, w, k)
  }

  /** Over whole runs: the teardown of a connection evicts another one exactly when that one received the phone last. */
  lemma TeardownExact(s: State, events: seq<Event>, phone: string, own: Writer)
    requires s.online == map[]
    ensures var t := Run(s, events);
            (forall q :: q in t.online && t.online[q] != own ==> Leads(Next(t, Unregister(phone)), q, t.online[q]))
            <==> !LastSetByOther(events, phone, own)
  {
    hide Next, SetLast;
    var t := Run(s, events);
    UnregisterExact(t, phone, own);
    if phone in t.online {
      OnlineExact(s, events, phone, t.online[phone]);
    }
    if k, w :| 0 <= k < |events| && w != own && SetLast(events, phone, w, k) {
      OnlineExact(s, events, phone, w);
    }
  }

  /** Two connections, one phone: the older one's teardown takes the entry of the newer one. */
  lemma NewerConnectionEvicted(s: State, older: Event, newer: Event, p: string, w1: Writer, w2: Writer)
    requires Sets(older, p, w1) && Sets(newer, p, w2) && w1 != w2
    ensures Leads(Run(s, [older, newer]), p, w2)
    ensures p !in Run(s, [older, newer, Unregister(p)]).online
  {
    hide Next;
    var two, three := [older, newer], [older, newer, Unregister(p)];
    assert SetLast(two, p, w2, 1);
    OnlineExact(s, two, p, w2);
    assert three[..2] == two;
    OnlineStep(Run(s, two), Unregister(p));
  }

  // ---- What a connection leaves behind ----

  /** w received a phone other than this one, and nothing set or removed that one since. */
  ghost predicate LeavesEntry(events: seq<Event>, phone: string, w: Writer) {
    exists k, q :: 0 <= k < |events| && q != phone && SetLast(events, q, w, k)
  }

  /**
   A connection w tears down by unregistering the phone of its last message. Some entry still
   leads to its closed writer exactly when it leaves one under another phone.
   */
  lemma LeftBehind(s: State, events: seq<Event>, phone: string, w: Writer)
    requires forall q :: q in s.online ==> s.online[q] != w
    ensures (exists q :: Leads(Next(Run(s, events), Unregister(phone)), q, w)) <==> LeavesEntry(events, phone, w)
  {
    hide Next, Run, SetLast;
    var t := Next(Run(s, events), Unregister(phone));
    if q :| Leads(t, q, w) {
      LeadsStep(Run(s, events), Unregister(phone), q, w);
      OnlineExact(s, events, q, w);
    }
    if k, q :| 0 <= k < |events| && q != phone && SetLast(events, q, w, k) {
      LeadsStep(Run(s, events), Unregister(phone), q, w);
      OnlineExact(s, events, q, w);
    }
  }

  /** A phone change alone does it: the entry of the first phone goes on leading to the closed connection. */
  lemma PhoneChangeLeavesEntry(s: State, first: Event, second: Event, p: string, q: string, w: Writer)
    requires Sets(first, p, w) && Sets(second, q, w) && p != q
    ensures Leads(Run(s, [first, second, Unregister(q)]), p, w)
  {
    var three := [first, second, Unregister(q)];
    assert SetLast(three, p, w, 0);
    OnlineExact(s, three, p, w);
  }
}
