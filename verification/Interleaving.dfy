/**
 The steps of one connection's coroutine of jt808/server.py among those of all others: between
 its own messages, wherever it awaits, any other coroutine or request may change the tables.
 */
module Interleaving {
  import opened Bytes
  import opened Session
  import opened SessionOnline
  import Bcd

  datatype Step = Own(e: Event) | Other(e: Event)

  /** The whole run, whoever took the step. */
  ghost function EventsOf(trace: seq<Step>): seq<Event> {
    if trace == [] then [] else EventsOf(trace[..|trace| - 1]) + [trace[|trace| - 1].e]
  }

  ghost function OwnOf(trace: seq<Step>): seq<Event> {
    if trace == [] then []
    else
      var step := trace[|trace| - 1];
      OwnOf(trace[..|trace| - 1]) + (if step.Own? then [step.e] else [])
  }

  ghost function OthersOf(trace: seq<Step>): seq<Event> {
    if trace == [] then []
    else
      var step := trace[|trace| - 1];
      OthersOf(trace[..|trace| - 1]) + (if step.Own? then [] else [step.e])
  }

  /** Every phone received was parsed from a header. */
  predicate HexEvent(e: Event) { e.Receive? ==> Bcd.AllHex(e.msg.header.phone) }

  predicate Possible(step: Step) { HexEvent(step.e) && (step.Own? ==> step.e.Receive?) }

  ghost predicate AllPossible(trace: seq<Step>) { forall i :: 0 <= i < |trace| ==> Possible(trace[i]) }

  /** What the coroutine writes for a message that meets the tables t. */
  function Written(t: State, e: Event): seq<Bytes>
    requires e.Receive? && HexEvent(e)
  {
    match ReplyBytes(t.(online := t.online[e.msg.header.phone := e.writer]), e.msg, e.env)
    case None => []
    case Some(raw) => [raw]
  }

  /** The replies that the coroutine writes along the run. */
  ghost function Replies(s: State, trace: seq<Step>): seq<Bytes>
    requires AllPossible(trace)
  {
    if trace == [] then []
    else
      var before, step := trace[..|trace| - 1], trace[|trace| - 1];
      assert Possible(step);
      Replies(s, before) + (if step.Own? then Written(Run(s, EventsOf(before)), step.e) else [])
  }

  lemma AddStep(s: State, trace: seq<Step>, step: Step)
    requires AllPossible(trace) && Possible(step)
    ensures var more, t := trace + [step], Run(s, EventsOf(trace));
            && AllPossible(more)
            && Run(s, EventsOf(more)) == Next(t, step.e)
            && OwnOf(more) == (if step.Own? then OwnOf(trace) + [step.e] else OwnOf(trace))
            && OthersOf(more) == (if step.Own? then OthersOf(trace) else OthersOf(trace) + [step.e])
            && Replies(s, more) == (if step.Own? then Replies(s, trace) + Written(t, step.e) else Replies(s, trace))
  {
    hide Next, Written, Possible;
    var more := trace + [step];
    assert more[..|trace|] == trace && more[|trace|] == step;
    assert EventsOf(more)[..|EventsOf(trace)|] == EventsOf(trace);
  }

  /** The steps of others are taken as they come. */
  ghost function Taken(trace: seq<Step>, others: seq<Event>): seq<Step> {
    if others == [] then trace else Taken(trace, others[..|others| - 1]) + [Other(others[|others| - 1])]
  }

  ghost predicate AllHexEvents(events: seq<Event>) { forall i :: 0 <= i < |events| ==> HexEvent(events[i]) }

  lemma {:induction false} AddOthers(s: State, trace: seq<Step>, others: seq<Event>)
    requires AllPossible(trace) && AllHexEvents(others)
    ensures var more := Taken(trace, others);
            && AllPossible(more)
            && Run(s, EventsOf(more)) == Run(Run(s, EventsOf(trace)), others)
            && OwnOf(more) == OwnOf(trace)
            && OthersOf(more) == OthersOf(trace) + others
            && Replies(s, more) == Replies(s, trace)
  {
    hide Next, EventsOf, OwnOf, OthersOf, Replies, HexEvent, AllPossible;
    if others != [] {
      var n := |others| - 1;
      assert AllHexEvents(others[..n]);
      AddOthers(s, trace, others[..n]);
      assert HexEvent(others[n]);
      AddStep(s, Taken(trace, others[..n]), Other(others[n]));
      assert others == others[..n] + [others[n]];
    }
  }

  predicate HexOnline(online: map<string, Writer>) { forall p :: p in online ==> Bcd.AllHex(p) }

  /** Every connected phone stays one that was parsed from a header. */
  lemma {:induction false} HexRun(s: State, events: seq<Event>)
    requires HexOnline(s.online) && AllHexEvents(events)
    ensures HexOnline(Run(s, events).online)
  {
    hide Next, Bcd.AllHex;
    if events != [] {
      var n := |events| - 1;
      assert AllHexEvents(events[..n]);
      HexRun(s, events[..n]);
      assert HexEvent(events[n]);
      OnlineStep(Run(s, events[..n]), events[n]);
    }
  }

  /** An await: whatever the others do meanwhile. */
  method Await(server: Server, others: seq<Event>)
    requires server.Valid() && AllHexEvents(others)
    modifies server
    ensures server.Valid()
    ensures server.Tables() == Run(old(server.Tables()), others)
  {
    hide Next;
    HexRun(server.Tables(), others);
    var t := Run(server.Tables(), others);
    server.serials, server.terminals, server.commands := t.serials, t.terminals, t.commands;
    server.paramLogs, server.locations, server.online := t.paramLogs, t.locations, t.online;
  }
}
