/**
 Reliable transmission of confirmable CoAP messages (sections 4.2, 4.7 and 4.8 of
 RFC 7252): one exchange at a time per peer, the others wait in a backlog;
 retransmission with doubled timeouts until an answer comes or patience ends.

 The message manager keeps two dictionaries and a set of timers. They are shown to
 be, for each peer, one line: the message in flight with its timer, and a queue.
 */
module Exchanges {
  import opened Bytes

  type Remote = nat

  /** A confirmable message; `id` counts the calls of `send_message`. */
  datatype Con = Con(id: nat, remote: Remote, mid: nat)

  datatype Key = Key(remote: Remote, mid: nat)

  datatype Timer = Timer(con: Con, timeout: real, counter: nat)

  datatype Exchange = Exchange(con: Con, timer: nat)

  datatype Outcome = Acknowledged | WasReset | Failed

  /** `handed`, `wire` and `outcomes` record what was asked for, what was sent and how it ended. */
  datatype State = State(
    active: map<Key, Exchange>, backlogs: map<Remote, seq<Con>>, timers: map<nat, Timer>,
    nextTimer: nat, nextMid: nat, handed: seq<Con>, wire: seq<Con>, outcomes: map<nat, Outcome>)

  datatype Event =
    | Send(remote: Remote, timeout: real)
    | Answer(remote: Remote, mid: nat, isReset: bool, timeout: real)
    | Expire(timer: nat)
    | Error(remote: Remote)

  const INIT_MID_BOUND: nat := 0x1_0000

  function Start(firstMid: nat): State {
    State(map[], map[], map[], 0, firstMid, [], [], map[])
  }

  // ---- The handlers ----

  predicate HasExchange(s: State, r: Remote) {
    exists k :: k in s.active && k.remote == r
  }

  function Schedule(s: State, con: Con, timeout: real, counter: nat): State {
    s.(timers := s.timers[s.nextTimer := Timer(con, timeout, counter)], nextTimer := s.nextTimer + 1,
       active := s.active[Key(con.remote, con.mid) := Exchange(con, s.nextTimer)])
  }

  function AddExchange(s: State, con: Con, timeout: real): State {
    Schedule(s.(backlogs := if con.remote in s.backlogs then s.backlogs else s.backlogs[con.remote := []]),
             con, timeout, 0)
  }

  function SendInitially(s: State, con: Con, timeout: real): State {
    AddExchange(s, con, timeout).(wire := s.wire + [con])
  }

  function SendMessage(s: State, r: Remote, timeout: real): State {
    var con := Con(|s.handed|, r, s.nextMid);
    var t := s.(handed := s.handed + [con], nextMid := (s.nextMid + 1) % INIT_MID_BOUND);
    if r in s.backlogs then t.(backlogs := s.backlogs[r := s.backlogs[r] + [con]])
    else SendInitially(t, con, timeout)
  }

  /** Works off the backlog until a message is in flight, or deletes it. */
  function ContinueBacklog(s: State, r: Remote, timeout: real): State
    requires r in s.backlogs
    decreases |s.backlogs[r]|
  {
    if HasExchange(s, r) then s
    else if s.backlogs[r] != [] then
      var popped := s.(backlogs := s.backlogs[r := s.backlogs[r][1..]]);
      ContinueBacklog(SendInitially(popped, s.backlogs[r][0], timeout), r, timeout)
    else s.(backlogs := s.backlogs - {r})
  }

  function Ended(s: State, k: Key, outcome: Outcome): State
    requires k in s.active
  {
    s.(active := s.active - {k}, timers := s.timers - {s.active[k].timer},
       outcomes := s.outcomes[s.active[k].con.id := outcome])
  }

  /** An acknowledgement or reset that matches no exchange is ignored. */
  function RemoveExchange(s: State, k: Key, isReset: bool, timeout: real): State {
    if k !in s.active then s
    else
      var ended := Ended(s, k, if isReset then WasReset else Acknowledged);
      if k.remote in ended.backlogs then ContinueBacklog(ended, k.remote, timeout) else ended
  }

  function Queued(s: State, r: Remote): seq<Con> {
    if r in s.backlogs then s.backlogs[r] else []
  }

  function Ids(cons: set<Con>): set<nat> {
    set c | c in cons :: c.id
  }

  function Failures(cons: set<Con>): map<nat, Outcome> {
    map id | id in Ids(cons) :: Failed
  }

  /** Patience has ended: the exchange and all messages behind it fail. */
  function GiveUp(s: State, k: Key): State
    requires k in s.active
  {
    var cons := {s.active[k].con} + set c | c in Queued(s, k.remote) :: c;
    s.(active := s.active - {k}, timers := s.timers - {s.active[k].timer}, backlogs := s.backlogs - {k.remote},
       outcomes := s.outcomes + Failures(cons))
  }

  function Retransmit(s: State, t: nat, limit: nat): State
    requires t in s.timers
  {
    var timer := s.timers[t];
    var k := Key(timer.con.remote, timer.con.mid);
    if k !in s.active then s
    else if timer.counter < limit then
      var popped := s.(active := s.active - {k}, timers := s.timers - {t, s.active[k].timer},
                       wire := s.wire + [timer.con]);
      Schedule(popped, timer.con, timer.timeout * 2.0, timer.counter + 1)
    else GiveUp(s, k)
  }

  function DispatchError(s: State, r: Remote): State {
    var exchanges := set k | k in s.active && k.remote == r :: s.active[k];
    var cons := (set e | e in exchanges :: e.con) + set c | c in Queued(s, r) :: c;
    s.(active := map k | k in s.active && k.remote != r :: s.active[k],
       timers := s.timers - set e | e in exchanges :: e.timer,
       backlogs := s.backlogs - {r},
       outcomes := s.outcomes + Failures(cons))
  }

  function Step(s: State, e: Event, limit: nat): State {
    match e
    case Send(r, timeout) => SendMessage(s, r, timeout)
    case Answer(r, mid, isReset, timeout) => RemoveExchange(s, Key(r, mid), isReset, timeout)
    case Expire(t) => if t in s.timers then Retransmit(s, t, limit) else s
    case Error(r) => DispatchError(s, r)
  }

  function Run(firstMid: nat, limit: nat, events: seq<Event>): State {
    if events == [] then Start(firstMid)
    else Step(Run(firstMid, limit, events[..|events| - 1]), events[|events| - 1], limit)
  }

  // ---- The simple form: one line per peer ----

  datatype Line = Line(current: Con, timer: nat, timeout: real, counter: nat, queue: seq<Con>)

  datatype Lines = Lines(
    lines: map<Remote, Line>, nextTimer: nat, nextMid: nat, handed: seq<Con>, wire: seq<Con>,
    outcomes: map<nat, Outcome>)

  function StartLines(firstMid: nat): Lines {
    Lines(map[], 0, firstMid, [], [], map[])
  }

  function Begin(a: Lines, con: Con, timeout: real, queue: seq<Con>): Lines {
    a.(lines := a.lines[con.remote := Line(con, a.nextTimer, timeout, 0, queue)], nextTimer := a.nextTimer + 1,
       wire := a.wire + [con])
  }

  function LineSend(a: Lines, r: Remote, timeout: real): Lines {
    var con := Con(|a.handed|, r, a.nextMid);
    var b := a.(handed := a.handed + [con], nextMid := (a.nextMid + 1) % INIT_MID_BOUND);
    if r in a.lines then b.(lines := a.lines[r := a.lines[r].(queue := a.lines[r].queue + [con])])
    else Begin(b, con, timeout, [])
  }

  function LineAnswer(a: Lines, r: Remote, mid: nat, isReset: bool, timeout: real): Lines {
    if r !in a.lines || a.lines[r].current.mid != mid then a
    else
      var line := a.lines[r];
      var b := a.(outcomes := a.outcomes[line.current.id := if isReset then WasReset else Acknowledged]);
      if line.queue == [] then b.(lines := a.lines - {r})
      else Begin(b.(lines := a.lines - {r}), line.queue[0], timeout, line.queue[1..])
  }

  function LineFail(a: Lines, r: Remote): Lines {
    if r !in a.lines then a
    else
      var cons := {a.lines[r].current} + set c | c in a.lines[r].queue :: c;
      a.(lines := a.lines - {r}, outcomes := a.outcomes + Failures(cons))
  }

  function LineExpire(a: Lines, r: Remote, limit: nat): Lines
    requires r in a.lines
  {
    var line := a.lines[r];
    if line.counter < limit then
      a.(lines := a.lines[r := line.(timer := a.nextTimer, timeout := line.timeout * 2.0, counter := line.counter + 1)],
         nextTimer := a.nextTimer + 1, wire := a.wire + [line.current])
    else LineFail(a, r)
  }

  predicate Owns(a: Lines, r: Remote, t: nat) {
    r in a.lines && a.lines[r].timer == t
  }

  /** Whose timer `t` is, if it is live. */
  ghost function OwnerOf(a: Lines, t: nat): Option<Remote> {
    if exists r :: Owns(a, r, t) then
      var r :| Owns(a, r, t);
      Some(r)
    else None
  }

  ghost function LineStep(a: Lines, e: Event, limit: nat): Lines {
    match e
    case Send(r, timeout) => LineSend(a, r, timeout)
    case Answer(r, mid, isReset, timeout) => LineAnswer(a, r, mid, isReset, timeout)
    case Expire(t) => if OwnerOf(a, t).Some? then LineExpire(a, OwnerOf(a, t).value, limit) else a
    case Error(r) => LineFail(a, r)
  }

  ghost function RunLines(firstMid: nat, limit: nat, events: seq<Event>): Lines {
    if events == [] then StartLines(firstMid)
    else LineStep(RunLines(firstMid, limit, events[..|events| - 1]), events[|events| - 1], limit)
  }

  // ---- How the dictionaries and the lines correspond ----

  type LineMap = map<Remote, Line>

  /** Every peer's messages stand in its own line, and no two lines share a timer. */
  predicate Tidy(lines: LineMap, nextTimer: nat) {
    && (forall r :: r in lines ==> lines[r].current.remote == r && lines[r].timer < nextTimer)
    && (forall r, c :: r in lines && c in lines[r].queue ==> c.remote == r)
    && (forall r, q :: r in lines && q in lines && lines[r].timer == lines[q].timer ==> r == q)
  }

  ghost predicate SameActive(active: map<Key, Exchange>, lines: LineMap) {
    && (forall k :: k in active <==> k.remote in lines && k.mid == lines[k.remote].current.mid)
    && (forall k :: k in active ==> active[k] == Exchange(lines[k.remote].current, lines[k.remote].timer))
  }

  ghost predicate SameBacklogs(backlogs: map<Remote, seq<Con>>, lines: LineMap) {
    && (forall r :: r in backlogs <==> r in lines)
    && (forall r :: r in backlogs ==> backlogs[r] == lines[r].queue)
  }

  ghost predicate SameTimers(timers: map<nat, Timer>, lines: LineMap) {
    && (forall t :: t in timers ==> exists r :: r in lines && lines[r].timer == t)
    && (forall r :: r in lines ==> lines[r].timer in timers)
    && (forall r :: r in lines ==>
          timers[lines[r].timer] == Timer(lines[r].current, lines[r].timeout, lines[r].counter))
  }

  ghost predicate SameRest(s: State, a: Lines) {
    && s.nextTimer == a.nextTimer && s.nextMid == a.nextMid && s.handed == a.handed && s.wire == a.wire
    && s.outcomes == a.outcomes
  }

  /** The two dictionaries and the timers are the lines. */
  ghost predicate Refines(s: State, a: Lines) {
    && Tidy(a.lines, a.nextTimer) && SameActive(s.active, a.lines) && SameBacklogs(s.backlogs, a.lines)
    && SameTimers(s.timers, a.lines) && SameRest(s, a)
  }

  lemma TidySet(lines: LineMap, nextTimer: nat, r: Remote, line: Line)
    requires Tidy(lines, nextTimer) && line.current.remote == r && forall c :: c in line.queue ==> c.remote == r
    requires line.timer == nextTimer || (r in lines && line.timer == lines[r].timer)
    ensures Tidy(lines[r := line], nextTimer + 1)
    ensures line.timer < nextTimer ==> Tidy(lines[r := line], nextTimer)
  {
  }

  lemma TidyRemove(lines: LineMap, nextTimer: nat, r: Remote)
    requires Tidy(lines, nextTimer)
    ensures Tidy(lines - {r}, nextTimer)
  {
  }

  lemma ActiveSet(active: map<Key, Exchange>, lines: LineMap, r: Remote, line: Line)
    requires SameActive(active, lines) && line.current.remote == r
    requires r in lines ==> lines[r].current == line.current
    ensures SameActive(active[Key(r, line.current.mid) := Exchange(line.current, line.timer)], lines[r := line])
  {
  }

  lemma ActiveRemove(active: map<Key, Exchange>, lines: LineMap, r: Remote)
    requires SameActive(active, lines) && r in lines
    ensures SameActive(active - {Key(r, lines[r].current.mid)}, lines - {r})
  {
  }

  lemma BacklogSet(backlogs: map<Remote, seq<Con>>, lines: LineMap, r: Remote, line: Line)
    requires SameBacklogs(backlogs, lines)
    ensures SameBacklogs(backlogs[r := line.queue], lines[r := line])
  {
  }

  lemma BacklogRemove(backlogs: map<Remote, seq<Con>>, lines: LineMap, r: Remote)
    requires SameBacklogs(backlogs, lines)
    ensures SameBacklogs(backlogs - {r}, lines - {r})
  {
  }

  lemma TimerAdd(timers: map<nat, Timer>, lines: LineMap, nextTimer: nat, r: Remote, line: Line)
    requires SameTimers(timers, lines) && Tidy(lines, nextTimer) && r !in lines && line.timer == nextTimer
    ensures SameTimers(timers[nextTimer := Timer(line.current, line.timeout, line.counter)], lines[r := line])
  {
    var after := lines[r := line];
    forall t | t in timers || t == nextTimer ensures exists q :: q in after && after[q].timer == t {
      if t == nextTimer {
        assert r in after;
      } else {
        var q :| q in lines && lines[q].timer == t;
        assert q in after;
      }
    }
  }

  lemma TimerRemove(timers: map<nat, Timer>, lines: LineMap, nextTimer: nat, r: Remote)
    requires SameTimers(timers, lines) && Tidy(lines, nextTimer) && r in lines
    ensures SameTimers(timers - {lines[r].timer}, lines - {r})
  {
    var after := lines - {r};
    forall t | t in timers && t != lines[r].timer ensures exists q :: q in after && after[q].timer == t {
      var q :| q in lines && lines[q].timer == t;
      assert q in after;
    }
  }

  lemma TimerKeep(timers: map<nat, Timer>, lines: LineMap, r: Remote, queue: seq<Con>)
    requires SameTimers(timers, lines) && r in lines
    ensures SameTimers(timers, lines[r := lines[r].(queue := queue)])
  {
    var after := lines[r := lines[r].(queue := queue)];
    forall t | t in timers ensures exists q :: q in after && after[q].timer == t {
      var q :| q in lines && lines[q].timer == t;
      assert q in after;
    }
  }

  // ---- The refinement, handler by handler ----

  /** A message sent where nothing is in flight becomes the head of its line. */
  lemma SendInitiallyRefines(s: State, a: Lines, con: Con, timeout: real, queue: seq<Con>)
    requires con.remote !in a.lines && (forall c :: c in queue ==> c.remote == con.remote)
    requires Tidy(a.lines, a.nextTimer) && SameActive(s.active, a.lines) && SameTimers(s.timers, a.lines)
    requires SameBacklogs(s.backlogs - {con.remote}, a.lines) && Queued(s, con.remote) == queue && SameRest(s, a)
    ensures Refines(SendInitially(s, con, timeout), Begin(a, con, timeout, queue))
  {
    hide SameActive, SameTimers, SameBacklogs, Tidy;
    var r, line := con.remote, Line(con, a.nextTimer, timeout, 0, queue);
    TidySet(a.lines, a.nextTimer, r, line);
    ActiveSet(s.active, a.lines, r, line);
    TimerAdd(s.timers, a.lines, a.nextTimer, r, line);
    BacklogSet(s.backlogs - {r}, a.lines, r, line);
    assert (s.backlogs - {r})[r := queue] == SendInitially(s, con, timeout).backlogs;
  }

  lemma SendMessageRefines(s: State, a: Lines, r: Remote, timeout: real)
    requires Refines(s, a)
    ensures Refines(SendMessage(s, r, timeout), LineSend(a, r, timeout))
  {
    hide SameActive, SameTimers, Tidy;
    var con := Con(|s.handed|, r, s.nextMid);
    var t := s.(handed := s.handed + [con], nextMid := (s.nextMid + 1) % INIT_MID_BOUND);
    var b := a.(handed := a.handed + [con], nextMid := (a.nextMid + 1) % INIT_MID_BOUND);
    if r in a.lines {
      var line := a.lines[r].(queue := a.lines[r].queue + [con]);
      InLine(a.lines, a.nextTimer, r);
      TidySet(a.lines, a.nextTimer, r, line);
      ActiveKept(s.active, a.lines, r, line);
      TimerKeep(s.timers, a.lines, r, line.queue);
      BacklogSet(s.backlogs, a.lines, r, line);
    } else {
      assert s.backlogs - {r} == s.backlogs;
      SendInitiallyRefines(t, b, con, timeout, []);
    }
  }

  lemma InLine(lines: LineMap, nextTimer: nat, r: Remote)
    requires Tidy(lines, nextTimer) && r in lines
    ensures lines[r].current.remote == r && lines[r].timer < nextTimer
    ensures forall c :: c in lines[r].queue ==> c.remote == r
  {
  }

  lemma ActiveKept(active: map<Key, Exchange>, lines: LineMap, r: Remote, line: Line)
    requires SameActive(active, lines) && r in lines
    requires line.current == lines[r].current && line.timer == lines[r].timer
    ensures SameActive(active, lines[r := line])
  {
  }

  lemma ActiveIs(active: map<Key, Exchange>, lines: LineMap, k: Key)
    requires SameActive(active, lines)
    ensures k in active <==> k.remote in lines && k.mid == lines[k.remote].current.mid
    ensures k in active ==> active[k] == Exchange(lines[k.remote].current, lines[k.remote].timer)
  {
  }

  lemma NoExchange(s: State, lines: LineMap, r: Remote)
    requires SameActive(s.active, lines)
    ensures HasExchange(s, r) <==> r in lines
  {
    if r in lines {
      assert Key(r, lines[r].current.mid) in s.active;
    }
  }

  /** With the exchange gone, the next message of the backlog takes its place, or the backlog goes too. */
  lemma ContinueRefines(s: State, a: Lines, r: Remote, timeout: real, queue: seq<Con>)
    requires r !in a.lines && (forall c :: c in queue ==> c.remote == r)
    requires Tidy(a.lines, a.nextTimer) && SameActive(s.active, a.lines) && SameTimers(s.timers, a.lines)
    requires SameBacklogs(s.backlogs - {r}, a.lines) && r in s.backlogs && s.backlogs[r] == queue && SameRest(s, a)
    ensures Refines(ContinueBacklog(s, r, timeout),
                    if queue == [] then a else Begin(a, queue[0], timeout, queue[1..]))
  {
    hide SameActive, SameTimers, SameBacklogs, Tidy, HasExchange;
    NoExchange(s, a.lines, r);
    if queue != [] {
      var popped := s.(backlogs := s.backlogs[r := queue[1..]]);
      assert popped.backlogs - {r} == s.backlogs - {r};
      SendInitiallyRefines(popped, a, queue[0], timeout, queue[1..]);
      var sent := SendInitially(popped, queue[0], timeout);
      NoExchange(sent, Begin(a, queue[0], timeout, queue[1..]).lines, r);
    }
  }

  lemma AnswerRefines(s: State, a: Lines, r: Remote, mid: nat, isReset: bool, timeout: real)
    requires Refines(s, a)
    ensures Refines(RemoveExchange(s, Key(r, mid), isReset, timeout), LineAnswer(a, r, mid, isReset, timeout))
  {
    hide SameActive, SameTimers, Tidy, ContinueBacklog;
    var k := Key(r, mid);
    ActiveIs(s.active, a.lines, k);
    if k in s.active {
      var line, outcome := a.lines[r], if isReset then WasReset else Acknowledged;
      var b := a.(lines := a.lines - {r}, outcomes := a.outcomes[line.current.id := outcome]);
      InLine(a.lines, a.nextTimer, r);
      TidyRemove(a.lines, a.nextTimer, r);
      ActiveRemove(s.active, a.lines, r);
      TimerRemove(s.timers, a.lines, a.nextTimer, r);
      BacklogRemove(s.backlogs, a.lines, r);
      ContinueRefines(Ended(s, k, outcome), b, r, timeout, line.queue);
    }
  }

  lemma FailRefines(s: State, a: Lines, r: Remote)
    requires Refines(s, a) && r in a.lines
    ensures var line := a.lines[r]; var k := Key(r, line.current.mid);
      && k in s.active && s.active[k] == Exchange(line.current, line.timer)
      && Queued(s, r) == line.queue
      && Refines(s.(active := s.active - {k}, timers := s.timers - {line.timer}, backlogs := s.backlogs - {r},
                    outcomes := LineFail(a, r).outcomes),
                 LineFail(a, r))
  {
    hide SameActive, SameTimers, Tidy, Failures;
    ActiveIs(s.active, a.lines, Key(r, a.lines[r].current.mid));
    TidyRemove(a.lines, a.nextTimer, r);
    ActiveRemove(s.active, a.lines, r);
    TimerRemove(s.timers, a.lines, a.nextTimer, r);
    BacklogRemove(s.backlogs, a.lines, r);
  }

  lemma AgainRefines(s: State, a: Lines, r: Remote, limit: nat)
    requires Refines(s, a) && r in a.lines && a.lines[r].counter < limit
    requires a.lines[r].timer in s.timers
    requires s.timers[a.lines[r].timer] == Timer(a.lines[r].current, a.lines[r].timeout, a.lines[r].counter)
    ensures Refines(Retransmit(s, a.lines[r].timer, limit), LineExpire(a, r, limit))
  {
    hide SameActive, Tidy, SameBacklogs, SameTimers;
    var line := a.lines[r];
    var k := Key(r, line.current.mid);
    var next := line.(timer := a.nextTimer, timeout := line.timeout * 2.0, counter := line.counter + 1);
    var without := a.lines - {r};
    InLine(a.lines, a.nextTimer, r);
    ActiveIs(s.active, a.lines, k);
    assert without[r := next] == a.lines[r := next];
    TidySet(a.lines, a.nextTimer, r, next);
    TidyRemove(a.lines, a.nextTimer, r);
    ActiveRemove(s.active, a.lines, r);
    ActiveSet(s.active - {k}, without, r, next);
    TimerRemove(s.timers, a.lines, a.nextTimer, r);
    TimerAdd(s.timers - {line.timer}, without, a.nextTimer, r, next);
    assert s.timers - {line.timer, line.timer} == s.timers - {line.timer};
    BacklogKept(s.backlogs, a.lines, r, next);
  }

  lemma TimerIs(timers: map<nat, Timer>, lines: LineMap, r: Remote)
    requires SameTimers(timers, lines) && r in lines
    ensures lines[r].timer in timers
    ensures timers[lines[r].timer] == Timer(lines[r].current, lines[r].timeout, lines[r].counter)
  {
  }

  lemma RetransmitRefines(s: State, a: Lines, r: Remote, limit: nat)
    requires Refines(s, a) && r in a.lines
    ensures a.lines[r].timer in s.timers
    ensures Refines(Retransmit(s, a.lines[r].timer, limit), LineExpire(a, r, limit))
  {
    hide SameActive, Tidy, SameTimers, SameBacklogs, LineFail, GiveUp;
    TimerIs(s.timers, a.lines, r);
    InLine(a.lines, a.nextTimer, r);
    if a.lines[r].counter < limit {
      AgainRefines(s, a, r, limit);
    } else {
      FailRefines(s, a, r);
      GiveUpIsFail(s, a, r);
    }
  }

  lemma BacklogKept(backlogs: map<Remote, seq<Con>>, lines: LineMap, r: Remote, line: Line)
    requires SameBacklogs(backlogs, lines) && r in lines && line.queue == lines[r].queue
    ensures SameBacklogs(backlogs, lines[r := line])
  {
  }

  lemma GiveUpIsFail(s: State, a: Lines, r: Remote)
    requires r in a.lines && SameRest(s, a)
    requires var k := Key(r, a.lines[r].current.mid);
      k in s.active && s.active[k] == Exchange(a.lines[r].current, a.lines[r].timer) && Queued(s, r) == a.lines[r].queue
    ensures var k := Key(r, a.lines[r].current.mid);
      GiveUp(s, k) == s.(active := s.active - {k}, timers := s.timers - {a.lines[r].timer},
                         backlogs := s.backlogs - {r}, outcomes := LineFail(a, r).outcomes)
  {
  }

  lemma ErrorRefines(s: State, a: Lines, r: Remote)
    requires Refines(s, a)
    ensures Refines(DispatchError(s, r), LineFail(a, r))
  {
    if r in a.lines {
      FailRefines(s, a, r);
      ErrorIsFail(s, a, r);
    } else {
      ErrorIsNothing(s, a, r);
    }
  }

  lemma ErrorIsFail(s: State, a: Lines, r: Remote)
    requires SameActive(s.active, a.lines) && r in a.lines && SameRest(s, a) && Queued(s, r) == a.lines[r].queue
    ensures DispatchError(s, r) ==
      s.(active := s.active - {Key(r, a.lines[r].current.mid)}, timers := s.timers - {a.lines[r].timer},
         backlogs := s.backlogs - {r}, outcomes := LineFail(a, r).outcomes)
  {
    hide Failures;
    var line := a.lines[r];
    var k := Key(r, line.current.mid);
    assert forall j :: j in s.active && j.remote == r <==> j == k;
    var exchanges := set j | j in s.active && j.remote == r :: s.active[j];
    assert exchanges == {Exchange(line.current, line.timer)};
    assert (set e | e in exchanges :: e.con) == {line.current};
    assert (set e | e in exchanges :: e.timer) == {line.timer};
    assert (map j | j in s.active && j.remote != r :: s.active[j]) == s.active - {k};
  }

  lemma NoFailures(outcomes: map<nat, Outcome>)
    ensures outcomes + Failures({}) == outcomes
  {
  }

  lemma ErrorIsNothing(s: State, a: Lines, r: Remote)
    requires SameActive(s.active, a.lines) && SameBacklogs(s.backlogs, a.lines) && r !in a.lines
    ensures DispatchError(s, r) == s
  {
    hide Failures;
    var exchanges := set j | j in s.active && j.remote == r :: s.active[j];
    assert exchanges == {};
    var cons := (set e | e in exchanges :: e.con) + set c | c in Queued(s, r) :: c;
    assert cons == {};
    NoFailures(s.outcomes);
    assert (map j | j in s.active && j.remote != r :: s.active[j]) == s.active;
    assert s.backlogs - {r} == s.backlogs;
    assert s.timers - (set e | e in exchanges :: e.timer) == s.timers;
  }

  lemma OwnerIs(s: State, a: Lines, t: nat)
    requires Refines(s, a)
    ensures t in s.timers <==> OwnerOf(a, t).Some?
    ensures OwnerOf(a, t).Some? ==> Owns(a, OwnerOf(a, t).value, t)
  {
    if t in s.timers {
      var r :| r in a.lines && a.lines[r].timer == t;
      assert Owns(a, r, t);
    }
  }

  lemma StepRefines(s: State, a: Lines, e: Event, limit: nat)
    requires Refines(s, a)
    ensures Refines(Step(s, e, limit), LineStep(a, e, limit))
  {
    hide Refines, SendMessage, RemoveExchange, Retransmit, DispatchError, LineSend, LineAnswer, LineExpire, LineFail;
    match e
    case Send(r, timeout) => SendMessageRefines(s, a, r, timeout);
    case Answer(r, mid, isReset, timeout) => AnswerRefines(s, a, r, mid, isReset, timeout);
    case Expire(t) =>
      OwnerIs(s, a, t);
      if t in s.timers {
        RetransmitRefines(s, a, OwnerOf(a, t).value, limit);
      }
    case Error(r) => ErrorRefines(s, a, r);
  }

  /** In every reachable state the message manager is a set of lines, one for each peer. */
  lemma {:induction false} RunRefines(firstMid: nat, limit: nat, events: seq<Event>)
    ensures Refines(Run(firstMid, limit, events), RunLines(firstMid, limit, events))
  {
    hide Step, LineStep;
    if events != [] {
      RunRefines(firstMid, limit, events[..|events| - 1]);
      StepRefines(Run(firstMid, limit, events[..|events| - 1]), RunLines(firstMid, limit, events[..|events| - 1]),
                  events[|events| - 1], limit);
    }
  }

  // ---- What holds of the lines in every run ----

  predicate Numbered(handed: seq<Con>) {
    forall i :: 0 <= i < |handed| ==> handed[i].id == i
  }

  /** The messages handed over for one peer, in order. */
  function For(handed: seq<Con>, r: Remote): seq<Con> {
    if handed == [] then []
    else
      var n := |handed| - 1;
      For(handed[..n], r) + if handed[n].remote == r then [handed[n]] else []
  }

  /** The message in flight and those behind it. */
  function Lineup(lines: LineMap, r: Remote): seq<Con> {
    if r in lines then [lines[r].current] + lines[r].queue else []
  }

  /** Everything in front of the line is over, and the line is not. */
  predicate SplitOf(all: seq<Con>, line: seq<Con>, outcomes: map<nat, Outcome>) {
    && |line| <= |all| && all[|all| - |line|..] == line
    && (forall c :: c in all[..|all| - |line|] ==> c.id in outcomes)
    && (forall c :: c in line ==> c.id !in outcomes)
  }

  /** Messages are over from the front on; the rest is the line. */
  predicate Split(handed: seq<Con>, line: seq<Con>, outcomes: map<nat, Outcome>, r: Remote) {
    SplitOf(For(handed, r), line, outcomes)
  }

  function Times(wire: seq<Con>, c: Con): nat {
    multiset(wire)[c]
  }

  /** Transmissions: one more than the retransmissions of the message in flight, none of those waiting. */
  predicate Counted(a: Lines, limit: nat) {
    && (forall r :: r in a.lines ==> a.lines[r].counter <= limit)
    && (forall r :: r in a.lines ==> Times(a.wire, a.lines[r].current) == a.lines[r].counter + 1)
    && (forall r, c :: r in a.lines && c in a.lines[r].queue ==> Times(a.wire, c) == 0)
    && (forall c :: c in a.wire ==> c in a.handed && Times(a.wire, c) <= limit + 1)
  }

  ghost predicate Inv(a: Lines) {
    && Tidy(a.lines, a.nextTimer) && Numbered(a.handed)
    && (forall id :: id in a.outcomes ==> id < |a.handed|)
    && (forall r :: Split(a.handed, Lineup(a.lines, r), a.outcomes, r))
  }

  lemma {:induction false} ForMembers(handed: seq<Con>, r: Remote)
    ensures forall c :: c in For(handed, r) <==> c in handed && c.remote == r
  {
    if handed != [] {
      var n := |handed| - 1;
      ForMembers(handed[..n], r);
      assert handed == handed[..n] + [handed[n]];
    }
  }

  lemma ForAppend(handed: seq<Con>, con: Con, r: Remote)
    ensures For(handed + [con], r) == For(handed, r) + if con.remote == r then [con] else []
  {
    assert (handed + [con])[..|handed|] == handed;
  }

  lemma {:induction false} ForDistinct(handed: seq<Con>, r: Remote)
    requires Numbered(handed)
    ensures forall i, j :: 0 <= i < j < |For(handed, r)| ==> For(handed, r)[i].id < For(handed, r)[j].id
  {
    if handed != [] {
      var n := |handed| - 1;
      ForDistinct(handed[..n], r);
      ForMembers(handed[..n], r);
      var front := For(handed[..n], r);
      forall c | c in front ensures c.id < n {
        var k :| 0 <= k < n && handed[..n][k] == c;
      }
    }
  }

  /** A message at the front of the line ends. */
  lemma SplitAdvance(handed: seq<Con>, line: seq<Con>, outcomes: map<nat, Outcome>, r: Remote, outcome: Outcome)
    requires Numbered(handed) && line != [] && Split(handed, line, outcomes, r)
    ensures Split(handed, line[1..], outcomes[line[0].id := outcome], r)
  {
    var all := For(handed, r);
    var k := |all| - |line|;
    ForDistinct(handed, r);
    assert all[k] == line[0];
    assert all[..k + 1] == all[..k] + [all[k]];
    forall c | c in line[1..] ensures c.id !in outcomes[line[0].id := outcome] {
      var i :| 0 <= i < |line[1..]| && line[1..][i] == c;
      assert all[k + 1 + i] == c;
    }
  }

  /** The whole line fails. */
  lemma SplitFail(handed: seq<Con>, line: seq<Con>, outcomes: map<nat, Outcome>, r: Remote, cons: set<Con>)
    requires Split(handed, line, outcomes, r) && forall c :: c in line ==> c in cons
    ensures Split(handed, [], outcomes + Failures(cons), r)
  {
    var all := For(handed, r);
    var k := |all| - |line|;
    assert all == all[..k] + line;
    assert all[..|all|] == all;
    forall c | c in all ensures c.id in outcomes + Failures(cons) {
      if c in line {
        assert c.id in Ids(cons);
      }
    }
  }

  /** What happens to messages of other peers does not concern the line. */
  lemma SplitOthers(handed: seq<Con>, line: seq<Con>, outcomes: map<nat, Outcome>, more: map<nat, Outcome>, r: Remote)
    requires Numbered(handed) && Split(handed, line, outcomes, r)
    requires forall id :: id in more ==> id < |handed| && handed[id].remote != r
    ensures Split(handed, line, outcomes + more, r)
  {
    var all := For(handed, r);
    ForMembers(handed, r);
    forall c | c in line ensures c.id !in outcomes + more {
      var i :| 0 <= i < |line| && line[i] == c;
      assert all[|all| - |line| + i] == c && c in all;
    }
  }

  lemma SplitLonger(all: seq<Con>, line: seq<Con>, outcomes: map<nat, Outcome>, con: Con)
    requires SplitOf(all, line, outcomes) && con.id !in outcomes
    ensures SplitOf(all + [con], line + [con], outcomes)
  {
    var k := |all| - |line|;
    assert (all + [con])[k..] == all[k..] + [con];
    assert (all + [con])[..k] == all[..k];
  }

  lemma SplitHand(handed: seq<Con>, line: seq<Con>, outcomes: map<nat, Outcome>, r: Remote, con: Con)
    requires Split(handed, line, outcomes, r) && con.id == |handed|
    requires forall id :: id in outcomes ==> id < |handed|
    ensures Split(handed + [con], if con.remote == r then line + [con] else line, outcomes, r)
  {
    hide For, SplitOf;
    ForAppend(handed, con, r);
    if con.remote == r {
      SplitLonger(For(handed, r), line, outcomes, con);
    } else {
      assert For(handed, r) + [] == For(handed, r);
    }
  }

  lemma InLineup(handed: seq<Con>, line: seq<Con>, outcomes: map<nat, Outcome>, r: Remote, c: Con)
    requires Numbered(handed) && Split(handed, line, outcomes, r) && c in line
    ensures c.id < |handed| && handed[c.id] == c && c.remote == r
  {
    var all := For(handed, r);
    var i :| 0 <= i < |line| && line[i] == c;
    assert all[|all| - |line| + i] == c;
    ForMembers(handed, r);
    var k :| 0 <= k < |handed| && handed[k] == c;
  }

  lemma SendKeepsInv(a: Lines, r: Remote, timeout: real)
    requires Inv(a)
    ensures Inv(LineSend(a, r, timeout))
  {
    hide Split, Tidy;
    var b, con := LineSend(a, r, timeout), Con(|a.handed|, r, a.nextMid);
    forall q ensures Split(b.handed, Lineup(b.lines, q), b.outcomes, q) {
      SplitHand(a.handed, Lineup(a.lines, q), a.outcomes, q, con);
      if q == r {
        assert Lineup(b.lines, r) == Lineup(a.lines, r) + [con];
      } else {
        assert Lineup(b.lines, q) == Lineup(a.lines, q);
      }
    }
    if r in a.lines {
      InLine(a.lines, a.nextTimer, r);
    }
    TidySet(a.lines, a.nextTimer, r, b.lines[r]);
  }

  predicate Answers(a: Lines, r: Remote, mid: nat) {
    r in a.lines && a.lines[r].current.mid == mid
  }

  lemma AnsweredLineup(a: Lines, r: Remote, mid: nat, isReset: bool, timeout: real, q: Remote)
    requires Answers(a, r, mid) && Tidy(a.lines, a.nextTimer)
    ensures var b := LineAnswer(a, r, mid, isReset, timeout);
      && Lineup(b.lines, q) == (if q == r then Lineup(a.lines, r)[1..] else Lineup(a.lines, q))
      && b.handed == a.handed
      && b.outcomes == a.outcomes[a.lines[r].current.id := if isReset then WasReset else Acknowledged]
  {
    InLine(a.lines, a.nextTimer, r);
  }

  lemma LineupHead(lines: LineMap, r: Remote)
    requires r in lines
    ensures Lineup(lines, r) != [] && Lineup(lines, r)[0] == lines[r].current
    ensures lines[r].current in Lineup(lines, r)
  {
  }

  lemma AnswerKeepsTidy(a: Lines, r: Remote, mid: nat, isReset: bool, timeout: real)
    requires Answers(a, r, mid) && Tidy(a.lines, a.nextTimer)
    ensures var b := LineAnswer(a, r, mid, isReset, timeout); Tidy(b.lines, b.nextTimer)
  {
    hide Tidy;
    InLine(a.lines, a.nextTimer, r);
    TidyRemove(a.lines, a.nextTimer, r);
    if a.lines[r].queue != [] {
      TidySet(a.lines - {r}, a.nextTimer, r, LineAnswer(a, r, mid, isReset, timeout).lines[r]);
    }
  }

  lemma AnswerKeepsSplit(a: Lines, r: Remote, mid: nat, isReset: bool, timeout: real, q: Remote)
    requires Answers(a, r, mid) && Tidy(a.lines, a.nextTimer) && Numbered(a.handed)
    requires Split(a.handed, Lineup(a.lines, r), a.outcomes, r) && Split(a.handed, Lineup(a.lines, q), a.outcomes, q)
    ensures var b := LineAnswer(a, r, mid, isReset, timeout); Split(b.handed, Lineup(b.lines, q), b.outcomes, q)
    ensures a.lines[r].current.id < |a.handed|
  {
    hide Split, Tidy, LineAnswer, Lineup, Numbered;
    LineupHead(a.lines, r);
    var outcome, current := if isReset then WasReset else Acknowledged, a.lines[r].current;
    InLineup(a.handed, Lineup(a.lines, r), a.outcomes, r, current);
    AnsweredLineup(a, r, mid, isReset, timeout, q);
    if q == r {
      SplitAdvance(a.handed, Lineup(a.lines, r), a.outcomes, r, outcome);
    } else {
      SplitOthers(a.handed, Lineup(a.lines, q), a.outcomes, map[current.id := outcome], q);
      assert a.outcomes + map[current.id := outcome] == a.outcomes[current.id := outcome];
    }
  }

  lemma AnswerKeepsInv(a: Lines, r: Remote, mid: nat, isReset: bool, timeout: real)
    requires Inv(a)
    ensures Inv(LineAnswer(a, r, mid, isReset, timeout))
  {
    hide Split, Tidy, Lineup, LineAnswer;
    if Answers(a, r, mid) {
      var b := LineAnswer(a, r, mid, isReset, timeout);
      forall q ensures Split(b.handed, Lineup(b.lines, q), b.outcomes, q) {
        AnswerKeepsSplit(a, r, mid, isReset, timeout, q);
      }
      AnswerKeepsSplit(a, r, mid, isReset, timeout, r);
      AnswerKeepsTidy(a, r, mid, isReset, timeout);
      AnsweredLineup(a, r, mid, isReset, timeout, r);
    } else {
      NotAnswered(a, r, mid, isReset, timeout);
    }
  }

  lemma NotAnswered(a: Lines, r: Remote, mid: nat, isReset: bool, timeout: real)
    requires !Answers(a, r, mid)
    ensures LineAnswer(a, r, mid, isReset, timeout) == a
  {
  }

  lemma FailKeepsInv(a: Lines, r: Remote)
    requires Inv(a)
    ensures Inv(LineFail(a, r))
  {
    hide Split, Tidy;
    if r in a.lines {
      var b, line := LineFail(a, r), Lineup(a.lines, r);
      var cons := {a.lines[r].current} + set c | c in a.lines[r].queue :: c;
      forall c | c in cons ensures c.id < |a.handed| && a.handed[c.id] == c && c.remote == r {
        InLineup(a.handed, line, a.outcomes, r, c);
      }
      forall q ensures Split(b.handed, Lineup(b.lines, q), b.outcomes, q) {
        if q == r {
          SplitFail(a.handed, line, a.outcomes, r, cons);
        } else {
          SplitOthers(a.handed, Lineup(a.lines, q), a.outcomes, Failures(cons), q);
        }
      }
      TidyRemove(a.lines, a.nextTimer, r);
    }
  }

  lemma ExpireKeepsInv(a: Lines, r: Remote, limit: nat)
    requires Inv(a) && r in a.lines
    ensures Inv(LineExpire(a, r, limit))
  {
    hide Split, Tidy;
    if a.lines[r].counter < limit {
      var b := LineExpire(a, r, limit);
      InLine(a.lines, a.nextTimer, r);
      TidySet(a.lines, a.nextTimer, r, b.lines[r]);
      forall q ensures Split(b.handed, Lineup(b.lines, q), b.outcomes, q) {
        assert Lineup(b.lines, q) == Lineup(a.lines, q);
      }
    } else {
      FailKeepsInv(a, r);
    }
  }

  lemma {:induction false} LinesKeepInv(firstMid: nat, limit: nat, events: seq<Event>)
    ensures Inv(RunLines(firstMid, limit, events))
  {
    hide LineSend, LineAnswer, LineExpire, LineFail;
    if events == [] {
      assert Inv(StartLines(firstMid));
    } else {
      hide Inv;
      var a, e := RunLines(firstMid, limit, events[..|events| - 1]), events[|events| - 1];
      LinesKeepInv(firstMid, limit, events[..|events| - 1]);
      match e
      case Send(r, timeout) => SendKeepsInv(a, r, timeout);
      case Answer(r, mid, isReset, timeout) => AnswerKeepsInv(a, r, mid, isReset, timeout);
      case Expire(t) =>
        if OwnerOf(a, t).Some? {
          ExpireKeepsInv(a, OwnerOf(a, t).value, limit);
        }
      case Error(r) => FailKeepsInv(a, r);
    }
  }

  // ---- Transmissions are counted ----

  lemma WireAppend(wire: seq<Con>, con: Con, c: Con)
    ensures Times(wire + [con], c) == Times(wire, c) + if c == con then 1 else 0
    ensures c in wire <==> Times(wire, c) > 0
  {
    assert multiset(wire + [con]) == multiset(wire) + multiset{con};
  }

  /** Lines hold messages that were handed over, each in one place. */
  lemma LinesAreApart(a: Lines)
    requires Inv(a)
    ensures forall r :: r in a.lines ==> a.lines[r].current in a.handed && a.lines[r].current.remote == r
    ensures forall r, c :: r in a.lines && c in a.lines[r].queue ==>
      c in a.handed && c.remote == r && c != a.lines[r].current
  {
    hide Split;
    forall r, c | r in a.lines && c in Lineup(a.lines, r) ensures c in a.handed && c.remote == r {
      InLineup(a.handed, Lineup(a.lines, r), a.outcomes, r, c);
    }
    forall r, c | r in a.lines && c in a.lines[r].queue
      ensures c in a.handed && c.remote == r && c != a.lines[r].current
    {
      assert c in Lineup(a.lines, r);
      LineDistinct(a.handed, Lineup(a.lines, r), a.outcomes, r);
      var i :| 0 <= i < |a.lines[r].queue| && a.lines[r].queue[i] == c;
      assert Lineup(a.lines, r)[i + 1] == c && Lineup(a.lines, r)[0] == a.lines[r].current;
      assert Lineup(a.lines, r)[0].id < Lineup(a.lines, r)[i + 1].id;
    }
    forall r | r in a.lines ensures a.lines[r].current in a.handed && a.lines[r].current.remote == r {
      assert a.lines[r].current in Lineup(a.lines, r);
    }
  }

  lemma LineDistinct(handed: seq<Con>, line: seq<Con>, outcomes: map<nat, Outcome>, r: Remote)
    requires Numbered(handed) && Split(handed, line, outcomes, r)
    ensures forall i, j :: 0 <= i < j < |line| ==> line[i].id < line[j].id
  {
    ForDistinct(handed, r);
    var all := For(handed, r);
    forall i, j | 0 <= i < j < |line| ensures line[i].id < line[j].id {
      assert all[|all| - |line| + i] == line[i] && all[|all| - |line| + j] == line[j];
    }
  }

  /** `b` is `a` with one more transmission of `con`, which now heads the line of its peer. */
  lemma TransmissionCounts(a: Lines, b: Lines, con: Con, limit: nat)
    requires Counted(a, limit) && b.wire == a.wire + [con] && con in b.handed
    requires forall c :: c in a.handed ==> c in b.handed
    requires con.remote in b.lines && b.lines[con.remote].current == con && b.lines[con.remote].counter <= limit
    requires Times(a.wire, con) == b.lines[con.remote].counter
    requires forall r :: r in b.lines && r != con.remote ==> r in a.lines && a.lines[r] == b.lines[r]
    requires forall r :: r in b.lines ==> b.lines[r].current.remote == r
    requires forall r, c :: r in b.lines && c in b.lines[r].queue ==> c != con && Times(a.wire, c) == 0
    ensures Counted(b, limit)
  {
    forall c ensures Times(b.wire, c) == Times(a.wire, c) + if c == con then 1 else 0 {
      WireAppend(a.wire, con, c);
    }
    forall c | c in b.wire ensures c in b.handed && Times(b.wire, c) <= limit + 1 {
      WireAppend(a.wire, con, c);
    }
  }

  lemma SendKeepsCounted(a: Lines, r: Remote, timeout: real, limit: nat)
    requires Inv(a) && Counted(a, limit)
    ensures Counted(LineSend(a, r, timeout), limit)
  {
    hide Inv, Tidy;
    LinesAreApart(a);
    var b, con := LineSend(a, r, timeout), Con(|a.handed|, r, a.nextMid);
    NotHandedYet(a, con);
    WireAppend(a.wire, con, con);
    if r !in a.lines {
      forall q, c | q in a.lines && c in a.lines[q].queue ensures c != con {
        assert c in a.handed;
      }
      TransmissionCounts(a, b, con, limit);
    }
  }

  lemma NotHandedYet(a: Lines, con: Con)
    requires Inv(a) && con.id == |a.handed|
    ensures con !in a.handed
  {
    hide Split;
  }

  lemma AnswerKeepsCounted(a: Lines, r: Remote, mid: nat, isReset: bool, timeout: real, limit: nat)
    requires Inv(a) && Counted(a, limit)
    ensures Counted(LineAnswer(a, r, mid, isReset, timeout), limit)
  {
    hide Inv, Tidy;
    LinesAreApart(a);
    if r in a.lines && a.lines[r].current.mid == mid && a.lines[r].queue != [] {
      var b, queue := LineAnswer(a, r, mid, isReset, timeout), a.lines[r].queue;
      assert queue[0] in queue;
      forall c | c in queue[1..] ensures c != queue[0] {
        QueueDistinct(a, r, c);
      }
      TransmissionCounts(a, b, queue[0], limit);
    }
  }

  lemma QueueDistinct(a: Lines, r: Remote, c: Con)
    requires Inv(a) && r in a.lines && a.lines[r].queue != [] && c in a.lines[r].queue[1..]
    ensures c != a.lines[r].queue[0]
  {
    hide Split;
    LineDistinct(a.handed, Lineup(a.lines, r), a.outcomes, r);
    var i :| 0 <= i < |a.lines[r].queue[1..]| && a.lines[r].queue[1..][i] == c;
    assert Lineup(a.lines, r)[i + 2] == c && Lineup(a.lines, r)[1] == a.lines[r].queue[0];
  }

  lemma ExpireKeepsCounted(a: Lines, r: Remote, limit: nat)
    requires Inv(a) && Counted(a, limit) && r in a.lines
    ensures Counted(LineExpire(a, r, limit), limit)
  {
    hide Inv, Tidy, Failures;
    LinesAreApart(a);
    if a.lines[r].counter < limit {
      TransmissionCounts(a, LineExpire(a, r, limit), a.lines[r].current, limit);
    }
  }

  lemma {:induction false} LinesKeepCounted(firstMid: nat, limit: nat, events: seq<Event>)
    ensures Counted(RunLines(firstMid, limit, events), limit)
  {
    hide LineSend, LineAnswer, LineExpire, LineFail, Inv;
    if events == [] {
      assert Counted(StartLines(firstMid), limit);
    } else {
      var a, e := RunLines(firstMid, limit, events[..|events| - 1]), events[|events| - 1];
      LinesKeepCounted(firstMid, limit, events[..|events| - 1]);
      LinesKeepInv(firstMid, limit, events[..|events| - 1]);
      match e
      case Send(r, timeout) => SendKeepsCounted(a, r, timeout, limit);
      case Answer(r, mid, isReset, timeout) => AnswerKeepsCounted(a, r, mid, isReset, timeout, limit);
      case Expire(t) =>
        if OwnerOf(a, t).Some? {
          ExpireKeepsCounted(a, OwnerOf(a, t).value, limit);
        }
      case Error(r) => FailKeepsCounted(a, r, limit);
    }
  }

  lemma FailKeepsCounted(a: Lines, r: Remote, limit: nat)
    requires Counted(a, limit)
    ensures Counted(LineFail(a, r), limit)
  {
    hide Failures;
  }

  // ---- Timeouts ----

  function Doubled(timeout: real, times: nat): real {
    if times == 0 then timeout else Doubled(timeout, times - 1) * 2.0
  }

  /** Sum of the timeouts of the first transmission and of `times - 1` retransmissions. */
  function Waited(timeout: real, times: nat): real {
    if times == 0 then 0.0 else Waited(timeout, times - 1) + Doubled(timeout, times - 1)
  }

  /** Events that may start an exchange draw a timeout for it. */
  predicate Draws(e: Event) {
    e.Send? || e.Answer?
  }

  /** The `i`-th event makes the first transmission of `con`. */
  predicate FirstSent(firstMid: nat, limit: nat, events: seq<Event>, i: nat, con: Con) {
    && i < |events| && Draws(events[i])
    && var before, after := Run(firstMid, limit, events[..i]).wire, Run(firstMid, limit, events[..i + 1]).wire;
       Times(before, con) == 0 && after == before + [con]
  }

  /** The timeout of the message in flight is the one drawn for its first transmission, doubled each time. */
  predicate DoubledAt(firstMid: nat, limit: nat, events: seq<Event>, line: Line, i: nat) {
    FirstSent(firstMid, limit, events, i, line.current) && line.timeout == Doubled(events[i].timeout, line.counter)
  }

  ghost predicate AllDoubled(firstMid: nat, limit: nat, events: seq<Event>, lines: LineMap) {
    forall r :: r in lines ==> exists i :: DoubledAt(firstMid, limit, events, lines[r], i)
  }

  lemma DoubledEarlier(firstMid: nat, limit: nat, events: seq<Event>, line: Line, i: nat)
    requires events != [] && DoubledAt(firstMid, limit, events[..|events| - 1], line, i)
    ensures DoubledAt(firstMid, limit, events, line, i)
    ensures DoubledAt(firstMid, limit, events,
                      line.(timeout := line.timeout * 2.0, counter := line.counter + 1), i)
  {
    hide Run, Times;
    var front := events[..|events| - 1];
    assert front[..i] == events[..i] && front[..i + 1] == events[..i + 1] && front[i] == events[i];
  }

  /** A line that is new was begun by the event, with the message's first transmission. */
  lemma BegunNow(a: Lines, e: Event, limit: nat, r: Remote)
    requires Inv(a) && Counted(a, limit)
    requires r in LineStep(a, e, limit).lines
    requires r in a.lines ==> LineStep(a, e, limit).lines[r].current != a.lines[r].current
    ensures var b := LineStep(a, e, limit); var line := b.lines[r];
      && Draws(e) && line.counter == 0 && line.timeout == e.timeout
      && Times(a.wire, line.current) == 0 && b.wire == a.wire + [line.current]
  {
    hide Inv;
    match e
    case Send(q, timeout) =>
      NotHandedYet(a, Con(|a.handed|, q, a.nextMid));
      WireAppend(a.wire, Con(|a.handed|, q, a.nextMid), Con(|a.handed|, q, a.nextMid));
    case Answer(q, mid, isReset, timeout) =>
      if q in a.lines && a.lines[q].queue != [] {
        assert a.lines[q].queue[0] in a.lines[q].queue;
        KeptRemote(a, q);
      }
    case Expire(t) =>
    case Error(q) =>
  }

  lemma KeptRemote(a: Lines, q: Remote)
    requires Inv(a) && q in a.lines
    ensures forall c :: c in a.lines[q].queue ==> c.remote == q
  {
  }

  /** A line that is kept is as it was, or its message was retransmitted. */
  lemma KeptLine(a: Lines, e: Event, limit: nat, r: Remote)
    requires Inv(a) && r in a.lines && r in LineStep(a, e, limit).lines
    requires LineStep(a, e, limit).lines[r].current == a.lines[r].current
    ensures var was, now := a.lines[r], LineStep(a, e, limit).lines[r];
      || (now.timeout == was.timeout && now.counter == was.counter)
      || (now.timeout == was.timeout * 2.0 && now.counter == was.counter + 1)
  {
    LinesAreApart(a);
    hide Inv;
    if e.Answer? && e.remote in a.lines && a.lines[e.remote].queue != [] {
      assert a.lines[e.remote].queue[0] in a.lines[e.remote].queue;
    }
  }

  lemma {:induction false} LinesDouble(firstMid: nat, limit: nat, events: seq<Event>)
    ensures AllDoubled(firstMid, limit, events, RunLines(firstMid, limit, events).lines)
  {
    hide DoubledAt, LineStep, Inv, Counted;
    if events != [] {
      var n := |events| - 1;
      var a, e := RunLines(firstMid, limit, events[..n]), events[n];
      var b := LineStep(a, e, limit);
      LinesDouble(firstMid, limit, events[..n]);
      LinesKeepCounted(firstMid, limit, events[..n]);
      LinesKeepInv(firstMid, limit, events[..n]);
      forall r | r in b.lines ensures exists i :: DoubledAt(firstMid, limit, events, b.lines[r], i) {
        if r in a.lines && b.lines[r].current == a.lines[r].current {
          var i :| DoubledAt(firstMid, limit, events[..n], a.lines[r], i);
          KeptLine(a, e, limit, r);
          DoubledEarlier(firstMid, limit, events, a.lines[r], i);
          SameDoubled(firstMid, limit, events, a.lines[r], b.lines[r], i);
        } else {
          BegunNow(a, e, limit, r);
          BegunIsDoubled(firstMid, limit, events, a, b, r);
        }
      }
    }
  }

  /** Only message, timeout and counter matter. */
  lemma SameDoubled(firstMid: nat, limit: nat, events: seq<Event>, was: Line, now: Line, i: nat)
    requires DoubledAt(firstMid, limit, events, was, i)
    requires DoubledAt(firstMid, limit, events, was.(timeout := was.timeout * 2.0, counter := was.counter + 1), i)
    requires now.current == was.current
    requires || (now.timeout == was.timeout && now.counter == was.counter)
             || (now.timeout == was.timeout * 2.0 && now.counter == was.counter + 1)
    ensures DoubledAt(firstMid, limit, events, now, i)
  {
    hide FirstSent;
  }

  lemma BegunIsDoubled(firstMid: nat, limit: nat, events: seq<Event>, a: Lines, b: Lines, r: Remote)
    requires events != [] && Draws(events[|events| - 1]) && r in b.lines
    requires a == RunLines(firstMid, limit, events[..|events| - 1]) && b == RunLines(firstMid, limit, events)
    requires b.lines[r].counter == 0 && b.lines[r].timeout == events[|events| - 1].timeout
    requires Times(a.wire, b.lines[r].current) == 0 && b.wire == a.wire + [b.lines[r].current]
    ensures DoubledAt(firstMid, limit, events, b.lines[r], |events| - 1)
  {
    hide Run, RunLines, Times, SameActive, SameBacklogs, SameTimers, Tidy;
    RunRefines(firstMid, limit, events);
    RunRefines(firstMid, limit, events[..|events| - 1]);
    assert events[..|events|] == events;
  }

  lemma {:induction false} WaitedIs(timeout: real, times: nat)
    ensures Waited(timeout, times) == Doubled(timeout, times) - timeout
  {
    if times > 0 {
      WaitedIs(timeout, times - 1);
    }
  }

  lemma {:induction false} DoubledGrows(a: real, b: real, m: nat, n: nat)
    requires 0.0 <= a <= b && m <= n
    ensures 0.0 <= Doubled(a, m) <= Doubled(b, n)
  {
    if m > 0 {
      DoubledGrows(a, b, m - 1, n - 1);
    } else if n > 0 {
      DoubledGrows(a, b, 0, n - 1);
    }
  }

  /**
   In every run, the timer of a message that was retransmitted k times waits 2^k times the
   timeout drawn at the event of its first transmission. If none is drawn above `longest`,
   the last retransmission goes out no later than (2^limit - 1) times `longest` after the
   first transmission, and patience ends after (2^(limit+1) - 1) times `longest`.
   */
  lemma TimeoutsDouble(firstMid: nat, limit: nat, events: seq<Event>, t: nat, longest: real) returns (first: nat)
    requires t in Run(firstMid, limit, events).timers
    requires forall i :: 0 <= i < |events| && Draws(events[i]) ==> 0.0 <= events[i].timeout <= longest
    ensures FirstSent(firstMid, limit, events, first, Run(firstMid, limit, events).timers[t].con)
    ensures var timer, drawn := Run(firstMid, limit, events).timers[t], events[first].timeout;
      && timer.counter <= limit && timer.timeout == Doubled(drawn, timer.counter)
      && Waited(drawn, timer.counter) <= Doubled(longest, limit) - longest
      && Waited(drawn, timer.counter) + timer.timeout <= Doubled(longest, limit + 1) - longest
  {
    hide Run, RunLines, FirstSent, Refines, Counted;
    RunRefines(firstMid, limit, events);
    LinesDouble(firstMid, limit, events);
    LinesKeepCounted(firstMid, limit, events);
    var a := RunLines(firstMid, limit, events);
    var r := TimerOfLine(Run(firstMid, limit, events), a, limit, t);
    first :| DoubledAt(firstMid, limit, events, a.lines[r], first);
    FirstIsEvent(firstMid, limit, events, first, a.lines[r].current);
    WaitedWithin(events[first].timeout, longest, a.lines[r].counter, limit);
    WaitedWithin(events[first].timeout, longest, a.lines[r].counter + 1, limit + 1);
  }

  lemma FirstIsEvent(firstMid: nat, limit: nat, events: seq<Event>, i: nat, con: Con)
    requires FirstSent(firstMid, limit, events, i, con)
    ensures i < |events| && Draws(events[i])
  {
    hide Run, Times;
  }

  lemma TimerOfLine(s: State, a: Lines, limit: nat, t: nat) returns (r: Remote)
    requires Refines(s, a) && t in s.timers && Counted(a, limit)
    ensures r in a.lines && a.lines[r].counter <= limit
    ensures s.timers[t] == Timer(a.lines[r].current, a.lines[r].timeout, a.lines[r].counter)
  {
    hide SameActive, SameBacklogs, SameRest, Tidy;
    r :| r in a.lines && a.lines[r].timer == t;
  }

  lemma {:induction false} WaitedWithin(drawn: real, longest: real, k: nat, limit: nat)
    requires 0.0 <= drawn <= longest && k <= limit
    ensures Waited(drawn, k) <= Doubled(longest, limit) - longest
  {
    WaitedIs(drawn, k);
    if k == 0 {
      DoubledGrows(longest, longest, 0, limit);
    } else {
      DoubledApart(drawn, longest, k);
      DoubledGrows(longest, longest, k, limit);
    }
  }

  /** Doubling widens the distance of two numbers. */
  lemma {:induction false} DoubledApart(a: real, b: real, k: nat)
    requires a <= b
    ensures Doubled(b, k) - Doubled(a, k) >= b - a
  {
    if k > 0 {
      DoubledApart(a, b, k - 1);
    }
  }

  // ---- What this means for the message manager ----

  /** A peer has a backlog exactly if it has an exchange, and it has at most one, with one live timer. */
  lemma OneExchangePerPeer(firstMid: nat, limit: nat, events: seq<Event>)
    ensures var s := Run(firstMid, limit, events);
      && (forall r :: r in s.backlogs <==> HasExchange(s, r))
      && (forall j, k :: j in s.active && k in s.active && j.remote == k.remote ==> j == k)
      && (forall k :: k in s.active ==>
            s.active[k].timer in s.timers && s.timers[s.active[k].timer].con == s.active[k].con)
      && (forall t :: t in s.timers ==>
            var k := Key(s.timers[t].con.remote, s.timers[t].con.mid);
            k in s.active && s.active[k].timer == t)
  {
    var s, a := Run(firstMid, limit, events), RunLines(firstMid, limit, events);
    RunRefines(firstMid, limit, events);
    forall r ensures r in s.backlogs <==> HasExchange(s, r) {
      NoExchange(s, a.lines, r);
    }
    forall t | t in s.timers
      ensures var k := Key(s.timers[t].con.remote, s.timers[t].con.mid); k in s.active && s.active[k].timer == t
    {
      var r :| r in a.lines && a.lines[r].timer == t;
      assert Key(r, a.lines[r].current.mid) in s.active;
    }
  }

  /**
   All messages handed over for a peer are, in this order: those that are over (acknowledged,
   reset or failed), the one in flight, and those in the backlog. None is in two places.
   */
  lemma MessagesInOrder(firstMid: nat, limit: nat, events: seq<Event>, k: Key)
    requires k in Run(firstMid, limit, events).active
    ensures var s := Run(firstMid, limit, events);
      k.remote in s.backlogs
      && Split(s.handed, [s.active[k].con] + s.backlogs[k.remote], s.outcomes, k.remote)
  {
    hide Split;
    var a := RunLines(firstMid, limit, events);
    RunRefines(firstMid, limit, events);
    LinesKeepInv(firstMid, limit, events);
    assert Split(a.handed, Lineup(a.lines, k.remote), a.outcomes, k.remote);
  }

  /** With no exchange left, every message for the peer is over. */
  lemma IdlePeerIsDone(firstMid: nat, limit: nat, events: seq<Event>, r: Remote)
    requires !HasExchange(Run(firstMid, limit, events), r)
    ensures var s := Run(firstMid, limit, events);
      forall c :: c in s.handed && c.remote == r ==> c.id in s.outcomes
  {
    var s, a := Run(firstMid, limit, events), RunLines(firstMid, limit, events);
    RunRefines(firstMid, limit, events);
    LinesKeepInv(firstMid, limit, events);
    NoExchange(s, a.lines, r);
    assert Split(a.handed, Lineup(a.lines, r), a.outcomes, r);
    ForMembers(s.handed, r);
    assert For(s.handed, r)[..|For(s.handed, r)|] == For(s.handed, r);
  }

  /** A message goes out at most once more than it may be retransmitted, and not at all from the backlog. */
  lemma TransmissionsAreBounded(firstMid: nat, limit: nat, events: seq<Event>, c: Con)
    ensures var s := Run(firstMid, limit, events);
      && Times(s.wire, c) <= limit + 1
      && (c.remote in s.backlogs && c in s.backlogs[c.remote] ==> Times(s.wire, c) == 0)
  {
    var s := Run(firstMid, limit, events);
    RunRefines(firstMid, limit, events);
    LinesKeepCounted(firstMid, limit, events);
    WireAppend(s.wire, c, c);
  }

  // ---- The code ----

  class MessageManager {
    const limit: nat
    var active: map<Key, Exchange>
    var backlogs: map<Remote, seq<Con>>
    var timers: map<nat, Timer>
    var nextTimer: nat
    var nextMid: nat
    var handed: seq<Con>
    var wire: seq<Con>
    var outcomes: map<nat, Outcome>

    constructor (firstMid: nat, limit: nat)
      ensures Now() == Start(firstMid) && this.limit == limit
    {
      this.limit := limit;
      active, backlogs, timers, nextTimer, nextMid := map[], map[], map[], 0, firstMid;
      handed, wire, outcomes := [], [], map[];
    }

    function Now(): State
      reads this
    {
      State(active, backlogs, timers, nextTimer, nextMid, handed, wire, outcomes)
    }

    method SendFirst(con: Con, timeout: real)
      modifies this
      ensures Now() == SendInitially(old(Now()), con, timeout)
    {
      if con.remote !in backlogs {
        backlogs := backlogs[con.remote := []];
      }
      timers := timers[nextTimer := Timer(con, timeout, 0)];
      active := active[Key(con.remote, con.mid) := Exchange(con, nextTimer)];
      nextTimer := nextTimer + 1;
      wire := wire + [con];
    }

    method Send(r: Remote, timeout: real)
      modifies this
      ensures Now() == SendMessage(old(Now()), r, timeout)
    {
      var con := Con(|handed|, r, nextMid);
      handed := handed + [con];
      nextMid := (nextMid + 1) % INIT_MID_BOUND;
      if r in backlogs {
        backlogs := backlogs[r := backlogs[r] + [con]];
      } else {
        SendFirst(con, timeout);
      }
    }

    method WorkOffBacklog(r: Remote, timeout: real)
      requires r in backlogs
      modifies this
      ensures Now() == ContinueBacklog(old(Now()), r, timeout)
    {
      hide SendInitially;
      while !HasExchange(Now(), r)
        invariant r in backlogs
        invariant ContinueBacklog(Now(), r, timeout) == ContinueBacklog(old(Now()), r, timeout)
        decreases |backlogs[r]|
      {
        if backlogs[r] != [] {
          var con := backlogs[r][0];
          ghost var popped := Now().(backlogs := backlogs[r := backlogs[r][1..]]);
          BacklogSurvives(popped, con, timeout, r);
          backlogs := backlogs[r := backlogs[r][1..]];
          SendFirst(con, timeout);
        } else {
          backlogs := backlogs - {r};
          break;
        }
      }
    }

    method Answered(r: Remote, mid: nat, isReset: bool, timeout: real)
      modifies this
      ensures Now() == RemoveExchange(old(Now()), Key(r, mid), isReset, timeout)
    {
      var k := Key(r, mid);
      if k !in active {
        return;
      }
      var exchange := active[k];
      active := active - {k};
      timers := timers - {exchange.timer};
      outcomes := outcomes[exchange.con.id := if isReset then WasReset else Acknowledged];
      if r in backlogs {
        WorkOffBacklog(r, timeout);
      }
    }

    method Fired(t: nat)
      requires t in timers
      modifies this
      ensures Now() == Retransmit(old(Now()), t, limit)
    {
      var timer := timers[t];
      var con := timer.con;
      var k := Key(con.remote, con.mid);
      if k !in active {
        return;
      }
      var exchange := active[k];
      active := active - {k};
      if timer.counter < limit {
        timers := timers - {t, exchange.timer};
        wire := wire + [con];
        timers := timers[nextTimer := Timer(con, timer.timeout * 2.0, timer.counter + 1)];
        active := active[k := Exchange(con, nextTimer)];
        nextTimer := nextTimer + 1;
      } else {
        timers := timers - {exchange.timer};
        var failed := {exchange.con} + set c | c in Queued(Now(), con.remote) :: c;
        backlogs := backlogs - {con.remote};
        outcomes := outcomes + Failures(failed);
      }
    }

    /** Collects the keys of the peer first, then removes the exchanges one by one. */
    method RemoveAll(r: Remote) returns (cons: set<Con>, cancelled: set<nat>)
      modifies this`active
      ensures active == map k | k in old(active) && k.remote != r :: old(active)[k]
      ensures var exchanges := set k | k in old(active) && k.remote == r :: old(active)[k];
        cons == (set e | e in exchanges :: e.con) && cancelled == set e | e in exchanges :: e.timer
    {
      var keys := set k | k in active && k.remote == r;
      cons, cancelled := {}, {};
      ghost var before, all := active, keys;
      while keys != {}
        invariant keys <= all && all == set k | k in before && k.remote == r
        invariant active == map k | k in before && (k.remote != r || k in keys) :: before[k]
        invariant cons == set k | k in all && k !in keys :: before[k].con
        invariant cancelled == set k | k in all && k !in keys :: before[k].timer
        decreases |keys|
      {
        var k :| k in keys;
        cons := cons + {active[k].con};
        cancelled := cancelled + {active[k].timer};
        active := active - {k};
        keys := keys - {k};
      }
      ghost var exchanges := set k | k in before && k.remote == r :: before[k];
      assert cons == set e | e in exchanges :: e.con;
      assert cancelled == set e | e in exchanges :: e.timer;
    }

    method ErrorFrom(r: Remote)
      modifies this
      ensures Now() == DispatchError(old(Now()), r)
    {
      var cons, cancelled := RemoveAll(r);
      outcomes := outcomes + Failures(cons + set c | c in Queued(Now(), r) :: c);
      timers := timers - cancelled;
      backlogs := backlogs - {r};
    }
  }

  lemma BacklogSurvives(s: State, con: Con, timeout: real, r: Remote)
    requires r in s.backlogs
    ensures var t := SendInitially(s, con, timeout); r in t.backlogs && t.backlogs[r] == s.backlogs[r]
  {
  }
}
