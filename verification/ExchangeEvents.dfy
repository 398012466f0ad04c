/**
 What each event does to the confirmable messages of a client, in every reachable state:
 which of them it ends and how, and what it puts on the wire (sections 4.2 and 4.4 of
 RFC 7252).
 */
module ExchangeEvents {
  import opened Bytes
  import opened Exchanges

  /** The message of the exchange with its peer and number. */
  predicate InFlight(s: State, c: Con) {
    var k := Key(c.remote, c.mid);
    k in s.active && s.active[k].con == c
  }

  /** An answer ends the message it names, the last timeout and an error all of the peer's. */
  predicate Ends(s: State, e: Event, c: Con, limit: nat) {
    match e
    case Send(_, _) => false
    case Answer(r, mid, _, _) => c.remote == r && c.mid == mid && InFlight(s, c)
    case Expire(t) => t in s.timers && s.timers[t].con.remote == c.remote && s.timers[t].counter >= limit
    case Error(r) => c.remote == r
  }

  lemma NotOver(a: Lines, c: Con)
    requires Inv(a) && c in a.handed
    ensures c.id !in a.outcomes <==> c in Lineup(a.lines, c.remote)
  {
    var all, line := For(a.handed, c.remote), Lineup(a.lines, c.remote);
    assert Split(a.handed, line, a.outcomes, c.remote);
    ForMembers(a.handed, c.remote);
    assert all == all[..|all| - |line|] + line;
  }

  lemma SameId(a: Lines, c: Con, d: Con)
    requires Numbered(a.handed) && c in a.handed && d in a.handed && c.id == d.id
    ensures c == d
  {
  }

  lemma InLineupIsHanded(a: Lines, r: Remote, c: Con)
    requires Inv(a) && c in Lineup(a.lines, r)
    ensures c in a.handed && c.remote == r && c.id !in a.outcomes
  {
    hide Tidy, For;
    InLineup(a.handed, Lineup(a.lines, r), a.outcomes, r, c);
  }

  lemma AnswerEnds(a: Lines, r: Remote, mid: nat, isReset: bool, timeout: real, c: Con)
    requires Inv(a) && c in a.handed && Answers(a, r, mid)
    ensures var b := LineAnswer(a, r, mid, isReset, timeout); var current := a.lines[r].current;
      && b.outcomes == a.outcomes[current.id := if isReset then WasReset else Acknowledged]
      && current.id !in a.outcomes && (c.id == current.id <==> c == current)
  {
    hide Split, Lineup, LineAnswer;
    LineupHead(a.lines, r);
    InLineupIsHanded(a, r, a.lines[r].current);
    AnsweredLineup(a, r, mid, isReset, timeout, r);
    if c.id == a.lines[r].current.id {
      SameId(a, c, a.lines[r].current);
    }
  }

  lemma FailEnds(a: Lines, r: Remote, c: Con)
    requires Inv(a) && c in a.handed
    ensures var b := LineFail(a, r);
      if c.id !in a.outcomes && c.remote == r then c.id in b.outcomes && b.outcomes[c.id] == Failed
      else if c.id in a.outcomes then c.id in b.outcomes && b.outcomes[c.id] == a.outcomes[c.id]
      else c.id !in b.outcomes
  {
    hide Split, Tidy;
    NotOver(a, c);
    if r in a.lines {
      var line := Lineup(a.lines, r);
      var cons := {a.lines[r].current} + set d | d in a.lines[r].queue :: d;
      assert forall d :: d in cons <==> d in line;
      forall d | d in cons ensures d.remote == r && d.id !in a.outcomes && (d.id == c.id ==> d == c) {
        InLineupIsHanded(a, r, d);
        if d.id == c.id {
          SameId(a, c, d);
        }
      }
      assert c.id in Ids(cons) <==> c in cons;
    }
  }

  /** What an event does to one message that was handed over. */
  predicate Ended(s: State, t: State, e: Event, c: Con, limit: nat) {
    if c.id in s.outcomes then c.id in t.outcomes && t.outcomes[c.id] == s.outcomes[c.id]
    else if !Ends(s, e, c, limit) then c.id !in t.outcomes
    else
      && c.id in t.outcomes
      && t.outcomes[c.id] == if !e.Answer? then Failed else if e.isReset then WasReset else Acknowledged
  }

  lemma InFlightIsCurrent(s: State, a: Lines, c: Con)
    requires Refines(s, a)
    ensures InFlight(s, c) <==> c.remote in a.lines && a.lines[c.remote].current == c
  {
    hide SameTimers, SameBacklogs;
  }

  lemma StepEnds(s: State, a: Lines, e: Event, c: Con, limit: nat)
    requires Refines(s, a) && Inv(a) && c in s.handed
    ensures Ended(s, Step(s, e, limit), e, c, limit)
  {
    hide Tidy, Step, Split, LineAnswer, LineFail, LineSend;
    StepRefines(s, a, e, limit);
    match e
    case Send(r, timeout) => SendEndsNothing(a, r, timeout);
    case Answer(r, mid, isReset, timeout) =>
      InFlightIsCurrent(s, a, c);
      if Answers(a, r, mid) {
        InLine(a.lines, a.nextTimer, r);
        AnswerEnds(a, r, mid, isReset, timeout, c);
      } else {
        NotAnswered(a, r, mid, isReset, timeout);
      }
    case Expire(t) =>
      OwnerIs(s, a, t);
      if t in s.timers {
        var r := OwnerOf(a, t).value;
        InLine(a.lines, a.nextTimer, r);
        TimerIs(s.timers, a.lines, r);
        FailEnds(a, r, c);
      }
    case Error(r) => FailEnds(a, r, c);
  }

  lemma SendEndsNothing(a: Lines, r: Remote, timeout: real)
    ensures LineSend(a, r, timeout).outcomes == a.outcomes
  {
  }

  lemma LastStep(firstMid: nat, limit: nat, events: seq<Event>, e: Event)
    ensures Run(firstMid, limit, events + [e]) == Step(Run(firstMid, limit, events), e, limit)
  {
    assert (events + [e])[..|events|] == events;
  }

  /**
   In every run: a message ends, and how, exactly by an answer that names it while it is in
   flight, by the timeout of its peer's exchange behind the last retransmission, or by an
   error from its peer; and what it has ended as, it stays.
   */
  lemma EndsExactly(firstMid: nat, limit: nat, events: seq<Event>, e: Event, c: Con)
    requires c in Run(firstMid, limit, events).handed
    ensures Ended(Run(firstMid, limit, events), Run(firstMid, limit, events + [e]), e, c, limit)
  {
    hide *;
    RunRefines(firstMid, limit, events);
    LinesKeepInv(firstMid, limit, events);
    LastStep(firstMid, limit, events, e);
    StepEnds(Run(firstMid, limit, events), RunLines(firstMid, limit, events), e, c, limit);
  }

  // ---- What goes out ----

  /** A first transmission to an idle peer or behind an answer, or a retransmission. */
  function Sent(s: State, e: Event, limit: nat): seq<Con> {
    match e
    case Send(r, _) => if HasExchange(s, r) then [] else [Con(|s.handed|, r, s.nextMid)]
    case Answer(r, mid, _, _) =>
      if Key(r, mid) in s.active && r in s.backlogs && s.backlogs[r] != [] then [s.backlogs[r][0]] else []
    case Expire(t) => if t in s.timers && s.timers[t].counter < limit then [s.timers[t].con] else []
    case Error(_) => []
  }

  lemma StepSends(s: State, a: Lines, e: Event, limit: nat)
    requires Refines(s, a)
    ensures Step(s, e, limit).wire == s.wire + Sent(s, e, limit)
  {
    hide Tidy, Step, LineFail;
    StepRefines(s, a, e, limit);
    match e
    case Send(r, timeout) => NoExchange(s, a.lines, r);
    case Answer(r, mid, isReset, timeout) => ActiveIs(s.active, a.lines, Key(r, mid));
    case Expire(t) =>
      OwnerIs(s, a, t);
      if t in s.timers {
        TimerIs(s.timers, a.lines, OwnerOf(a, t).value);
        FailSendsNothing(a, OwnerOf(a, t).value);
      }
    case Error(r) => FailSendsNothing(a, r);
  }

  lemma FailSendsNothing(a: Lines, r: Remote)
    ensures LineFail(a, r).wire == a.wire
  {
  }

  /** In every run, exactly what each event puts on the wire. */
  lemma SendsExactly(firstMid: nat, limit: nat, events: seq<Event>, e: Event)
    ensures var s := Run(firstMid, limit, events);
      Run(firstMid, limit, events + [e]).wire == s.wire + Sent(s, e, limit)
  {
    hide *;
    RunRefines(firstMid, limit, events);
    LastStep(firstMid, limit, events, e);
    StepSends(Run(firstMid, limit, events), RunLines(firstMid, limit, events), e, limit);
  }

  predicate NumberedFrom(first: nat, handed: seq<Con>, next: nat) {
    && (forall i :: 0 <= i < |handed| ==> handed[i].id == i && handed[i].mid == (first + i) % 0x1_0000)
    && next == (first + |handed|) % 0x1_0000
  }

  lemma NumbersStep(first: nat, handed: seq<Con>, next: nat, con: Con)
    requires NumberedFrom(first, handed, next) && con.id == |handed| && con.mid == next
    ensures NumberedFrom(first, handed + [con], (next + 1) % 0x1_0000)
  {
  }

  /** In every run messages are numbered in the order in which they are handed over, modulo 2^16. */
  lemma {:induction false} NumbersAscend(firstMid: nat, limit: nat, events: seq<Event>)
    requires firstMid < 0x1_0000
    ensures var s := Run(firstMid, limit, events); NumberedFrom(firstMid, s.handed, s.nextMid)
  {
    if events != [] {
      hide *;
      var n := |events| - 1;
      var s := Run(firstMid, limit, events[..n]);
      NumbersAscend(firstMid, limit, events[..n]);
      RunRefines(firstMid, limit, events[..n]);
      assert events == events[..n] + [events[n]];
      LastStep(firstMid, limit, events[..n], events[n]);
      HandsOver(s, RunLines(firstMid, limit, events[..n]), events[n], limit);
      if events[n].Send? {
        NumbersStep(firstMid, s.handed, s.nextMid, Con(|s.handed|, events[n].remote, s.nextMid));
      }
    }
  }

  lemma HandsOver(s: State, a: Lines, e: Event, limit: nat)
    requires Refines(s, a)
    ensures var t := Step(s, e, limit);
      if e.Send? then
        t.handed == s.handed + [Con(|s.handed|, e.remote, s.nextMid)] && t.nextMid == (s.nextMid + 1) % 0x1_0000
      else t.handed == s.handed && t.nextMid == s.nextMid
  {
    hide SameActive, SameTimers, SameBacklogs, Tidy, Step;
    StepRefines(s, a, e, limit);
  }
}
