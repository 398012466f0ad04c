/**
 Stores that fail while the process lives on, for example on a full disk. The process has
 by then noted more as stored than is, so a later crash can make it repeat numbers and let
 requests through again. The exact states from which that can happen.
 */
module FailedStores {
  import opened Bytes
  import opened ReplayWindow
  import opened SecurityContext

  function RunFrom(cfg: Config, s: System, more: seq<Event>): System {
    if more == [] then s else Step(cfg, RunFrom(cfg, s, more[..|more| - 1]), more[|more| - 1])
  }

  lemma RunFromStep(cfg: Config, s: System, more: seq<Event>, e: Event)
    ensures RunFrom(cfg, s, more + [e]) == Step(cfg, RunFrom(cfg, s, more), e)
  {
    hide Step;
    assert (more + [e])[..|more|] == more;
  }

  lemma {:induction false} RunFromTogether(cfg: Config, s: System, a: seq<Event>, b: seq<Event>)
    ensures RunFrom(cfg, s, a + b) == RunFrom(cfg, RunFrom(cfg, s, a), b)
  {
    hide Step;
    if b == [] {
      assert a + b == a;
    } else {
      var n := |b| - 1;
      assert (a + b)[..|a| + n] == a + b[..n];
      RunFromTogether(cfg, s, a, b[..n]);
    }
  }

  // ---- Numbers ----

  function Max(a: nat, b: nat): nat {
    if a >= b then a else b
  }

  /** In every reachable state, whatever fails. */
  predicate Reachable(s: System) {
    && (forall n :: n in s.issued ==> n < MAX_SEQNO)
    && (s.process.Some? ==> s.process.value.sender <= s.process.value.persisted && s.process.value.chunk > 0)
  }

  lemma {:induction false} RunIsReachable(cfg: Config, events: seq<Event>)
    requires cfg.Valid()
    ensures Reachable(Run(cfg, events))
  {
    hide HandleRequest, HandleResponse;
    if events != [] {
      var n := |events| - 1;
      RunIsReachable(cfg, events[..n]);
      StepIsReachable(cfg, Run(cfg, events[..n]), events[n]);
    }
  }

  lemma StepIsReachable(cfg: Config, s: System, e: Event)
    requires cfg.Valid() && Reachable(s)
    ensures Reachable(Step(cfg, s, e))
  {
    hide StrikeOut;
  }

  /** No number that may still be handed out has been, now or after a restart. */
  predicate NumbersSafe(s: System) {
    var next := LoadedNumber(s.disk);
    && Distinct(s.issued) && (forall n :: n in s.issued ==> n < next)
    && (s.process.Some? ==>
        var p := s.process.value;
        && (forall n :: n in s.issued ==> n < p.sender)
        && (p.persisted <= Max(p.sender, next) || Max(p.sender, next) >= MAX_SEQNO))
  }

  lemma OneMoreNumber(numbers: seq<nat>, n: nat)
    requires Distinct(numbers) && forall m :: m in numbers ==> m < n
    ensures Distinct(numbers + [n])
  {
    assert n !in numbers;
    OneMore(numbers, n);
  }

  lemma StepKeepsNumbersSafe(cfg: Config, s: System, e: Event)
    requires cfg.Valid() && Reachable(s) && NumbersSafe(s) && !Raises(e)
    ensures NumbersSafe(Step(cfg, s, e))
  {
    hide StrikeOut, Distinct;
    if s.process.Some? {
      OneMoreNumber(s.issued, s.process.value.sender);
    }
  }

  lemma {:induction false} StaysNumbersSafe(cfg: Config, s: System, more: seq<Event>)
    requires cfg.Valid() && Reachable(s) && NumbersSafe(s) && NoneRaises(more)
    ensures Reachable(RunFrom(cfg, s, more)) && NumbersSafe(RunFrom(cfg, s, more))
  {
    hide Step, Reachable, NumbersSafe;
    if more != [] {
      var n := |more| - 1;
      assert more[n] in more && forall e :: e in more[..n] ==> e in more;
      StaysNumbersSafe(cfg, s, more[..n]);
      StepIsReachable(cfg, RunFrom(cfg, s, more[..n]), more[n]);
      StepKeepsNumbersSafe(cfg, RunFrom(cfg, s, more[..n]), more[n]);
    }
  }

  const TAKE := NewNumber(NoFault)

  function Take(k: nat): seq<Event> {
    seq(k, _ => TAKE)
  }

  lemma TakeNeverRaises(k: nat)
    ensures NoneRaises(Take(k)) && NoneRaises([Crash, SecurityContext.Start] + Take(k))
    ensures NoneRaises([SecurityContext.Start] + Take(k))
  {
  }

  /** The `k` numbers from `from` on. */
  function Span(from: nat, k: nat): seq<nat> {
    seq(k, i => from + i)
  }

  lemma TakesOne(cfg: Config, s: System)
    requires cfg.Valid() && Reachable(s) && s.process.Some? && s.process.value.sender < MAX_SEQNO
    ensures var p := s.process.value; var r := Step(cfg, s, TAKE);
      && Reachable(r) && r.process.Some? && r.process.value.sender == p.sender + 1
      && r.issued == s.issued + [p.sender]
      && (p.sender + 1 <= p.persisted ==> r.disk == s.disk && r.process.value.persisted == p.persisted)
  {
    StepIsReachable(cfg, s, TAKE);
  }

  /** Taking `k` numbers hands out the next ones, without a store while they count as stored. */
  lemma {:induction false} TakesNumbers(cfg: Config, s: System, p: Process, k: nat)
    requires cfg.Valid() && Reachable(s) && s.process == Some(p) && p.sender + k <= MAX_SEQNO
    ensures var r := RunFrom(cfg, s, Take(k));
      && Reachable(r) && r.process.Some? && r.process.value.sender == p.sender + k
      && r.issued == s.issued + Span(p.sender, k)
      && (p.sender + k <= p.persisted ==> r.disk == s.disk && r.process.value.persisted == p.persisted)
  {
    hide *;
    Spans(p.sender, k);
    if k == 0 {
      NoneTaken(cfg, s);
      assert s.issued + [] == s.issued;
    } else {
      TakesNumbers(cfg, s, p, k - 1);
      RunFromStep(cfg, s, Take(k - 1), TAKE);
      TakesOne(cfg, RunFrom(cfg, s, Take(k - 1)));
      assert s.issued + Span(p.sender, k - 1) + [p.sender + k - 1]
          == s.issued + (Span(p.sender, k - 1) + [p.sender + k - 1]);
    }
  }

  lemma Spans(from: nat, k: nat)
    ensures k == 0 ==> Span(from, k) == []
    ensures k > 0 ==> Span(from, k) == Span(from, k - 1) + [from + k - 1] && Take(k) == Take(k - 1) + [TAKE]
  {
  }

  lemma NoneTaken(cfg: Config, s: System)
    ensures RunFrom(cfg, s, Take(0)) == s
  {
  }

  lemma Repeats(before: seq<nat>, from: nat, k: nat, n: nat)
    requires n in before && from <= n < from + k
    ensures !Distinct(before + Span(from, k))
  {
    var i :| 0 <= i < |before| && before[i] == n;
    var after := before + Span(from, k);
    assert after[i] == n && after[|before| + (n - from)] == n;
  }

  /** A process that is about to reach a number that was handed out repeats it. */
  lemma RepeatsAhead(cfg: Config, s: System, p: Process, n: nat) returns (more: seq<Event>)
    requires cfg.Valid() && Reachable(s) && s.process == Some(p) && n in s.issued && p.sender <= n
    ensures NoneRaises(more) && !Distinct(RunFrom(cfg, s, more).issued)
  {
    var k := n + 1 - p.sender;
    more := Take(k);
    TakesNumbers(cfg, s, p, k);
    TakeNeverRaises(k);
    Repeats(s.issued, p.sender, k, n);
  }

  /** After a crash, a number that the file does not cover is handed out again. */
  lemma RepeatsAfterRestart(cfg: Config, s: System, n: nat) returns (more: seq<Event>)
    requires cfg.Valid() && Reachable(s) && n in s.issued && LoadedNumber(s.disk) <= n
    ensures NoneRaises(more) && !Distinct(RunFrom(cfg, s, more).issued)
  {
    hide Distinct, Take;
    var restart := if s.process.Some? then [Crash, SecurityContext.Start] else [SecurityContext.Start];
    var t := s.(process := Some(Load(cfg, s.disk)));
    Restarted(cfg, s);
    var rest := RepeatsAhead(cfg, t, t.process.value, n);
    more := restart + rest;
    RunFromTogether(cfg, s, restart, rest);
  }

  lemma Restarted(cfg: Config, s: System)
    ensures RunFrom(cfg, s, if s.process.Some? then [Crash, SecurityContext.Start] else [SecurityContext.Start])
         == s.(process := Some(Load(cfg, s.disk)))
  {
    if s.process.Some? {
      assert [Crash, SecurityContext.Start] == [Crash] + [SecurityContext.Start];
      RunFromStep(cfg, s, [Crash], SecurityContext.Start);
      assert [] + [Crash] == [Crash];
      RunFromStep(cfg, s, [], Crash);
    } else {
      assert [] + [SecurityContext.Start] == [SecurityContext.Start];
      RunFromStep(cfg, s, [], SecurityContext.Start);
    }
  }

  /** A process that believes more to be stored than is hands out a number that a restart repeats. */
  lemma RepeatsUncovered(cfg: Config, s: System, p: Process) returns (more: seq<Event>)
    requires cfg.Valid() && Reachable(s) && s.process == Some(p)
    requires p.persisted > Max(p.sender, LoadedNumber(s.disk)) && Max(p.sender, LoadedNumber(s.disk)) < MAX_SEQNO
    ensures NoneRaises(more) && !Distinct(RunFrom(cfg, s, more).issued)
  {
    hide Distinct;
    var m := Max(p.sender, LoadedNumber(s.disk));
    var k := m + 1 - p.sender;
    TakesNumbers(cfg, s, p, k);
    TakeNeverRaises(k);
    var t := RunFrom(cfg, s, Take(k));
    assert Span(p.sender, k)[m - p.sender] == m;
    assert m in t.issued;
    var rest := RepeatsAfterRestart(cfg, t, m);
    more := Take(k) + rest;
    RunFromTogether(cfg, s, Take(k), rest);
  }

  lemma UnsafeRepeats(cfg: Config, s: System) returns (more: seq<Event>)
    requires cfg.Valid() && Reachable(s) && !NumbersSafe(s)
    ensures NoneRaises(more) && !Distinct(RunFrom(cfg, s, more).issued)
  {
    hide Distinct;
    if !Distinct(s.issued) {
      more := [];
    } else if n :| n in s.issued && n >= LoadedNumber(s.disk) {
      more := RepeatsAfterRestart(cfg, s, n);
    } else {
      var p := s.process.value;
      if n :| n in s.issued && n >= p.sender {
        more := RepeatsAhead(cfg, s, p, n);
      } else {
        more := RepeatsUncovered(cfg, s, p);
      }
    }
  }

  /**
   After any run, failed stores included: if no further store fails, no number is ever handed
   out twice exactly if the state is safe: what was handed out lies below the number in the
   file and below the next one, and the process counts no number as stored that it may still
   hand out and the file does not cover.
   */
  lemma NumbersRepeatExactly(cfg: Config, events: seq<Event>)
    requires cfg.Valid()
    ensures NumbersSafe(Run(cfg, events)) <==>
      forall more :: NoneRaises(more) ==> Distinct(RunFrom(cfg, Run(cfg, events), more).issued)
  {
    hide Distinct, Step, Reachable, NumbersSafe, NoneRaises;
    var s := Run(cfg, events);
    RunIsReachable(cfg, events);
    if NumbersSafe(s) {
      forall more | NoneRaises(more) ensures Distinct(RunFrom(cfg, s, more).issued) {
        StaysNumbersSafe(cfg, s, more);
        SafeMeans(RunFrom(cfg, s, more));
      }
    } else {
      var more := UnsafeRepeats(cfg, s);
    }
  }

  lemma SafeMeans(s: System)
    requires NumbersSafe(s)
    ensures Distinct(s.issued)
  {
  }

  // ---- Requests ----

  /** In every reachable state, whatever fails. */
  predicate WindowsProper(size: nat, s: System) {
    && (LoadedWindow(s.disk).Some? ==> Proper(size, LoadedWindow(s.disk).value))
    && (s.process.Some? && s.process.value.window.Some? ==> Proper(size, s.process.value.window.value))
    && (s.process.Some? && s.process.value.window.None? ==> LoadedWindow(s.disk).None?)
  }

  lemma StepKeepsProper(cfg: Config, s: System, e: Event)
    requires cfg.Valid() && WindowsProper(cfg.size, s)
    ensures WindowsProper(cfg.size, Step(cfg, s, e))
  {
    hide Proper, StrikeOut, FreshlySeen, IsValid;
    if s.process.Some? {
      var p := s.process.value;
      if e.Request? {
        StartsProper(cfg.size, e.seqno);
        if p.window.Some? {
          StrikeOutMeans(cfg.size, p.window.value, e.seqno, e.seqno);
        }
      } else if e.Response? && e.own.Some? {
        StartsProper(cfg.size, e.own.value);
      }
    }
  }

  lemma {:induction false} RunIsProper(cfg: Config, events: seq<Event>)
    requires cfg.Valid()
    ensures WindowsProper(cfg.size, Run(cfg, events))
  {
    hide Step;
    if events == [] {
      StartsProper(cfg.size, 0);
    } else {
      var n := |events| - 1;
      RunIsProper(cfg, events[..n]);
      StepKeepsProper(cfg, Run(cfg, events[..n]), events[n]);
    }
  }

  predicate FreshFrom(cfg: Config, s: System, more: seq<Event>) {
    more == [] ||
    (FreshFrom(cfg, s, more[..|more| - 1]) && Fresh(RunFrom(cfg, s, more[..|more| - 1]), more[|more| - 1]))
  }

  lemma {:induction false} StaysReplaySafe(cfg: Config, s: System, more: seq<Event>)
    requires cfg.Valid() && ReplayInv(cfg.size, s) && NoneRaises(more) && FreshFrom(cfg, s, more)
    ensures ReplayInv(cfg.size, RunFrom(cfg, s, more))
  {
    hide Step, ReplayInv, Fresh;
    if more != [] {
      var n := |more| - 1;
      assert more[n] in more && forall e :: e in more[..n] ==> e in more;
      StaysReplaySafe(cfg, s, more[..n]);
      StepKeepsReplay(cfg, RunFrom(cfg, s, more[..n]), more[n]);
    }
  }

  /** A genuine request with this number. */
  function Ask(seqno: nat): Event {
    Request(seqno, true, false, NoFault)
  }

  lemma FreshFromTogether(cfg: Config, s: System, more: seq<Event>, e: Event)
    requires FreshFrom(cfg, s, more) && Fresh(RunFrom(cfg, s, more), e)
    ensures FreshFrom(cfg, s, more + [e])
  {
    hide Fresh;
    assert (more + [e])[..|more|] == more;
  }

  /** A number that the window of the process allows is let through. */
  lemma AskIsAccepted(cfg: Config, s: System, p: Process, n: nat)
    requires cfg.Valid() && WindowsProper(cfg.size, s) && s.process == Some(p)
    requires p.window.Some? && IsValid(cfg.size, p.window.value, n)
    ensures Fresh(s, Ask(n))
    ensures var r := Step(cfg, s, Ask(n));
      && r.accepted == s.accepted + [n] && r.process.Some? && (!p.windowPersisted ==> r.disk == s.disk)
  {
    hide Proper, IsValid, StrikeOut;
    StrikeOutMeans(cfg.size, p.window.value, n, n);
  }

  lemma AcceptedTwice(accepted: seq<nat>, n: nat)
    requires n in accepted
    ensures !Distinct(accepted + [n])
  {
    var i :| 0 <= i < |accepted| && accepted[i] == n;
    assert (accepted + [n])[i] == (accepted + [n])[|accepted|];
  }

  /** A restart that loads a window which allows an accepted number lets it through again. */
  lemma AcceptsAfterRestart(cfg: Config, s: System, n: nat) returns (more: seq<Event>)
    requires cfg.Valid() && WindowsProper(cfg.size, s) && n in s.accepted
    requires LoadedWindow(s.disk).Some? && IsValid(cfg.size, LoadedWindow(s.disk).value, n)
    ensures NoneRaises(more) && FreshFrom(cfg, s, more) && !Distinct(RunFrom(cfg, s, more).accepted)
  {
    hide Distinct, Proper, IsValid, StrikeOut, Load;
    var restart := if s.process.Some? then [Crash, SecurityContext.Start] else [SecurityContext.Start];
    var t := s.(process := Some(Load(cfg, s.disk)));
    Restarted(cfg, s);
    RestartIsFresh(cfg, s);
    LoadGives(cfg, s.disk);
    AskIsAccepted(cfg, t, t.process.value, n);
    more := restart + [Ask(n)];
    RunFromStep(cfg, s, restart, Ask(n));
    FreshFromTogether(cfg, s, restart, Ask(n));
    AcceptedTwice(s.accepted, n);
  }

  lemma LoadGives(cfg: Config, disk: Disk)
    ensures Load(cfg, disk).window == LoadedWindow(disk)
  {
  }

  lemma RestartIsFresh(cfg: Config, s: System)
    ensures FreshFrom(cfg, s, if s.process.Some? then [Crash, SecurityContext.Start] else [SecurityContext.Start])
  {
    hide Step;
    assert FreshFrom(cfg, s, []);
    FreshFromTogether(cfg, s, [], SecurityContext.Start);
    assert [] + [SecurityContext.Start] == [SecurityContext.Start];
    if s.process.Some? {
      FreshFromTogether(cfg, s, [], Crash);
      assert [] + [Crash] == [Crash];
      FreshFromTogether(cfg, s, [Crash], SecurityContext.Start);
      assert [Crash] + [SecurityContext.Start] == [Crash, SecurityContext.Start];
    }
  }

  /** A number behind a window is allowed by it. */
  lemma BehindIsValid(size: nat, w: Window, n: nat)
    requires n >= w.index + size
    ensures IsValid(size, w, n)
  {
  }

  /** A process that strikes numbers out of a window the file still holds lets one through that a restart repeats. */
  lemma AcceptsUncovered(cfg: Config, s: System, p: Process) returns (more: seq<Event>)
    requires cfg.Valid() && WindowsProper(cfg.size, s) && s.process == Some(p)
    requires !p.windowPersisted && LoadedWindow(s.disk).Some?
    ensures NoneRaises(more) && FreshFrom(cfg, s, more) && !Distinct(RunFrom(cfg, s, more).accepted)
  {
    hide Distinct, Proper, IsValid, StrikeOut, Step;
    var v, w := p.window.value, LoadedWindow(s.disk).value;
    var n := Max(v.index, w.index) + cfg.size;
    BehindIsValid(cfg.size, v, n);
    BehindIsValid(cfg.size, w, n);
    AskIsAccepted(cfg, s, p, n);
    var t := Step(cfg, s, Ask(n));
    StepKeepsProper(cfg, s, Ask(n));
    var rest := AcceptsAfterRestart(cfg, t, n);
    AskFirst(cfg, s, n, rest);
    more := [Ask(n)] + rest;
  }

  lemma {:induction false} AskFirst(cfg: Config, s: System, n: nat, rest: seq<Event>)
    requires Fresh(s, Ask(n)) && NoneRaises(rest) && FreshFrom(cfg, Step(cfg, s, Ask(n)), rest)
    ensures var more := [Ask(n)] + rest;
      && NoneRaises(more) && FreshFrom(cfg, s, more)
      && RunFrom(cfg, s, more) == RunFrom(cfg, Step(cfg, s, Ask(n)), rest)
  {
    hide Step, Fresh;
    RunFromStep(cfg, s, [], Ask(n));
    assert [] + [Ask(n)] == [Ask(n)];
    RunFromTogether(cfg, s, [Ask(n)], rest);
    if rest == [] {
      FreshFromTogether(cfg, s, [], Ask(n));
      assert [Ask(n)] + rest == [Ask(n)];
    } else {
      var k := |rest| - 1;
      assert rest == rest[..k] + [rest[k]] && forall e :: e in rest[..k] ==> e in rest;
      AskFirst(cfg, s, n, rest[..k]);
      FreshFromTogether(cfg, s, [Ask(n)] + rest[..k], rest[k]);
      assert [Ask(n)] + rest[..k] + [rest[k]] == [Ask(n)] + rest;
    }
  }

  lemma UnsafeAccepts(cfg: Config, s: System) returns (more: seq<Event>)
    requires cfg.Valid() && WindowsProper(cfg.size, s) && !ReplayInv(cfg.size, s)
    ensures NoneRaises(more) && FreshFrom(cfg, s, more) && !Distinct(RunFrom(cfg, s, more).accepted)
  {
    hide Distinct, Proper, IsValid, Step;
    if !Distinct(s.accepted) {
      more := [];
    } else if !Rejects(cfg.size, LoadedWindow(s.disk), s.accepted) {
      var n :| n in s.accepted && IsValid(cfg.size, LoadedWindow(s.disk).value, n);
      more := AcceptsAfterRestart(cfg, s, n);
    } else {
      var p := s.process.value;
      if !Rejects(cfg.size, p.window, s.accepted) {
        var n :| n in s.accepted && IsValid(cfg.size, p.window.value, n);
        AskIsAccepted(cfg, s, p, n);
        AskFirst(cfg, s, n, []);
        AcceptedTwice(s.accepted, n);
        more := [Ask(n)] + [];
      } else {
        more := AcceptsUncovered(cfg, s, p);
      }
    }
  }

  /**
   After any run, failed stores included: if no further store fails and Echo answers are
   fresh, no request number is ever let through twice exactly if none has been, both windows
   reject what was let through, and the file holds no window that the process has left behind.
   */
  lemma RequestsRepeatExactly(cfg: Config, events: seq<Event>)
    requires cfg.Valid()
    ensures ReplayInv(cfg.size, Run(cfg, events)) <==>
      forall more :: NoneRaises(more) && FreshFrom(cfg, Run(cfg, events), more)
        ==> Distinct(RunFrom(cfg, Run(cfg, events), more).accepted)
  {
    hide Distinct, Step, ReplayInv, NoneRaises, FreshFrom, WindowsProper;
    var s := Run(cfg, events);
    RunIsProper(cfg, events);
    if ReplayInv(cfg.size, s) {
      forall more | NoneRaises(more) && FreshFrom(cfg, s, more) ensures Distinct(RunFrom(cfg, s, more).accepted) {
        StaysReplaySafe(cfg, s, more);
        ReplayInvMeans(cfg.size, RunFrom(cfg, s, more));
      }
    } else {
      var more := UnsafeAccepts(cfg, s);
    }
  }

  lemma ReplayInvMeans(size: nat, s: System)
    requires ReplayInv(size, s)
    ensures Distinct(s.accepted)
  {
  }

  // ---- Two runs ----

  /** One failed store at the first number, and a crash after the next: that number is handed out again. */
  lemma NumberRepeated(cfg: Config)
    requires cfg.Valid() && cfg.chunkStart >= 2
    ensures Run(cfg, [SecurityContext.Start, NewNumber(Raised), TAKE, Crash, SecurityContext.Start, TAKE, TAKE]).issued
         == [1, 0, 1]
  {
    var e: seq<Event> := [SecurityContext.Start, NewNumber(Raised), TAKE, Crash, SecurityContext.Start, TAKE, TAKE];
    assert e[..7] == e;
    RunsUpTo(cfg, e, 0);
    RunsUpTo(cfg, e, 1);
    RunsUpTo(cfg, e, 2);
    assert Run(cfg, e[..3]).issued == [1];
    RunsUpTo(cfg, e, 3);
    RunsUpTo(cfg, e, 4);
    RunsUpTo(cfg, e, 5);
    assert Run(cfg, e[..6]).issued == [1, 0];
    RunsUpTo(cfg, e, 6);
  }

  lemma RunsUpTo(cfg: Config, events: seq<Event>, k: nat)
    requires k < |events|
    ensures Run(cfg, events[..k + 1]) == Step(cfg, Run(cfg, events[..k]), events[k])
    ensures Run(cfg, events[..0]) == INIT
  {
    hide Step;
    assert events[..k + 1][..k] == events[..k];
  }

  /** The number is marked in memory, the request fails, and the file still does without a window. */
  lemma FailedStrike(cfg: Config, s: System, p: Process)
    requires cfg.Valid() && s.process == Some(p) && p.window == Some(EMPTY) && p.windowPersisted
    ensures var r := Step(cfg, s, Request(0, true, false, Raised));
      && r.disk == s.disk && r.accepted == s.accepted && r.process.Some?
      && var q := r.process.value;
        !q.windowPersisted && q.window.Some? && IsValid(cfg.size, q.window.value, 1)
  {
    hide Proper, IsValid, StrikeOut;
    StartsProper(cfg.size, 0);
    StartsProper(cfg.size, 1);
    StrikeOutMeans(cfg.size, EMPTY, 0, 0);
    StrikeOutMeans(cfg.size, EMPTY, 0, 1);
  }

  /** One failed store at a request, and a crash after the next: that request is let through again. */
  lemma RequestRepeated(cfg: Config)
    requires cfg.Valid()
    ensures Run(cfg, [SecurityContext.Start, Request(0, true, false, Raised), Ask(1), Crash, SecurityContext.Start,
                      Ask(1)]).accepted == [1, 1]
  {
    hide StrikeOut, IsValid, Proper, Step;
    var e: seq<Event> := [SecurityContext.Start, Request(0, true, false, Raised), Ask(1), Crash, SecurityContext.Start,
                          Ask(1)];
    assert e[..6] == e;
    RunsUpTo(cfg, e, 0);
    StartsFresh(cfg, INIT);
    RunsUpTo(cfg, e, 1);
    FailedStrike(cfg, Run(cfg, e[..1]), Load(cfg, Absent));
    RunsUpTo(cfg, e, 2);
    RunIsProper(cfg, e[..2]);
    AskIsAccepted(cfg, Run(cfg, e[..2]), Run(cfg, e[..2]).process.value, 1);
    RunsUpTo(cfg, e, 3);
    RunsUpTo(cfg, e, 4);
    CrashAndStart(cfg, Run(cfg, e[..3]));
    RunIsProper(cfg, e[..5]);
    RunsUpTo(cfg, e, 5);
    AskIsAccepted(cfg, Run(cfg, e[..5]), Load(cfg, Absent), 1);
  }

  lemma StartsFresh(cfg: Config, s: System)
    requires cfg.Valid() && s.process.None? && s.disk.Absent?
    ensures Step(cfg, s, SecurityContext.Start) == s.(process := Some(Load(cfg, Absent)))
    ensures Load(cfg, Absent).window == Some(EMPTY) && Load(cfg, Absent).windowPersisted
    ensures IsValid(cfg.size, EMPTY, 1)
  {
    StartsProper(cfg.size, 1);
  }

  lemma CrashAndStart(cfg: Config, s: System)
    requires cfg.Valid() && s.process.Some? && s.disk.Absent?
    ensures Step(cfg, Step(cfg, s, Crash), SecurityContext.Start) == s.(process := Some(Load(cfg, Absent)))
  {
  }
}
