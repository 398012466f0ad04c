/**
 Which request gets which acknowledgement, in terms of what has happened: every confirmable
 request that is taken gets one, with its response if that comes first, unless another
 request under the same token displaces it.
 */
module RequestAnswers {
  import opened Bytes
  import opened RequestDedup

  // ---- In terms of events ----

  /** A request with this number was received, and not forgotten since. */
  predicate Remembered(events: seq<Event>, key: Key) {
    if events == [] then false
    else
      match events[|events| - 1]
      case Request(k, _, _) => k == key || Remembered(events[..|events| - 1], key)
      case Forget(k) => k != key && Remembered(events[..|events| - 1], key)
      case _ => Remembered(events[..|events| - 1], key)
  }

  /** The event is a confirmable request under the token that is no duplicate. */
  predicate Takes(events: seq<Event>, e: Event, chance: Chance) {
    && e.Request? && e.kind == Confirmable && e.key.remote == chance.remote && e.token == chance.token
    && !Remembered(events, e.key)
  }

  /** A response under the token, or the end of the delay for one. */
  predicate Settles(e: Event, chance: Chance) {
    (e.Respond? || e.AckTimeout?) && e.chance == chance
  }

  /** The number of the last confirmable request taken under the token, if it was not settled yet. */
  function Pending(events: seq<Event>, chance: Chance): Option<nat> {
    if events == [] then None
    else
      var front, e := events[..|events| - 1], events[|events| - 1];
      if Takes(front, e, chance) then Some(e.key.mid)
      else if Settles(e, chance) then None
      else Pending(front, chance)
  }

  lemma {:induction false} RecentIsRemembered(firstMid: nat, events: seq<Event>, key: Key)
    ensures key in Run(firstMid, events).recent <==> Remembered(events, key)
  {
    if events != [] {
      var n := |events| - 1;
      RecentIsRemembered(firstMid, events[..n], key);
      StepLeaves(Run(firstMid, events[..n]), events[n]);
      if events[n].Request? {
        RequestIsRecent(Run(firstMid, events[..n]), events[n], key);
      }
      assert Run(firstMid, events) == Step(Run(firstMid, events[..n]), events[n]);
      hide Step;
    }
  }

  lemma RequestIsRecent(s: State, e: Event, key: Key)
    requires e.Request?
    ensures key in Step(s, e).recent <==> key in s.recent || key == e.key
  {
    hide SendsAgain;
    if e.key in s.recent && s.recent[e.key].Some? {
      var k := s.recent[e.key].value.PacketKey();
      assert (s.recent[k := s.recent[e.key]]).Keys == s.recent.Keys + {k};
    }
  }

  lemma {:induction false} ChancesArePending(firstMid: nat, events: seq<Event>, chance: Chance)
    ensures var s := Run(firstMid, events);
      && (chance in s.chances <==> Pending(events, chance).Some?)
      && (chance in s.chances ==> Pending(events, chance) == Some(s.chances[chance]))
  {
    if events != [] {
      var n := |events| - 1;
      var s, e := Run(firstMid, events[..n]), events[n];
      ChancesArePending(firstMid, events[..n], chance);
      if e.Request? {
        RecentIsRemembered(firstMid, events[..n], e.key);
        RequestTakes(s, e, chance);
      } else {
        OthersTake(s, e, chance);
      }
      assert Run(firstMid, events) == Step(s, e);
      hide Step, Remembered;
    }
  }

  lemma RequestTakes(s: State, e: Event, chance: Chance)
    requires e.Request?
    ensures var t := Step(s, e);
      if e.kind == Confirmable && e.key !in s.recent && chance == Chance(e.key.remote, e.token) then
        chance in t.chances && t.chances[chance] == e.key.mid
      else
        && (chance in t.chances <==> chance in s.chances)
        && (chance in s.chances ==> t.chances[chance] == s.chances[chance])
  {
  }

  lemma OthersTake(s: State, e: Event, chance: Chance)
    requires !e.Request?
    ensures var t := Step(s, e);
      if Settles(e, chance) then chance !in t.chances
      else
        && (chance in t.chances <==> chance in s.chances)
        && (chance in s.chances ==> t.chances[chance] == s.chances[chance])
  {
    StepLeaves(s, e);
    if !Acknowledges(s, e) {
      hide Step;
    }
  }

  // ---- What is acknowledged ----

  /**
   In every run, if a request is pending under a token, a response or the end of the delay
   sends one acknowledgement with its number, with the body of a response that is not
   suppressed, and stores it for duplicates while the request is remembered; if none is
   pending, and for any other event, no request is acknowledged.
   */
  lemma AcknowledgedExactly(firstMid: nat, events: seq<Event>, e: Event)
    ensures var s, t := Run(firstMid, events), Run(firstMid, events + [e]);
      if (e.Respond? || e.AckTimeout?) && Pending(events, e.chance).Some? then
        var key := Key(e.chance.remote, Pending(events, e.chance).value);
        var ack := Ack(key.remote, key.mid, if e.Respond? && !e.suppressed then Some(e.body) else None);
        && t.wire == s.wire + [ack] && t.acknowledged == s.acknowledged + [key]
        && t.recent == (if Remembered(events, key) then s.recent[key := Some(ack)] else s.recent)
        && t.answers == (if Remembered(events, key) then s.answers[key := Some(ack)] else s.answers)
      else t.acknowledged == s.acknowledged
  {
    var s := Run(firstMid, events);
    assert (events + [e])[..|events|] == events;
    StepLeaves(s, e);
    if e.Respond? || e.AckTimeout? {
      ChancesArePending(firstMid, events, e.chance);
      if Pending(events, e.chance).Some? {
        RecentIsRemembered(firstMid, events, Key(e.chance.remote, Pending(events, e.chance).value));
        RunIsKeyed(firstMid, events);
      }
    }
  }

  /** What else a peer's messages bring about: replies to pings and responses. */
  lemma RepliesExactly(firstMid: nat, events: seq<Event>, e: Event)
    requires e.Ping? || e.Response?
    ensures var s, t := Run(firstMid, events), Run(firstMid, events + [e]);
      t.wire == s.wire +
        if e.Ping? then [Reset(e.key.remote, e.key.mid)]
        else if e.kind != Confirmable then []
        else if e.expected then [Ack(e.key.remote, e.key.mid, None)]
        else if e.multicast then []
        else [Reset(e.key.remote, e.key.mid)]
  {
    var s := Run(firstMid, events);
    assert (events + [e])[..|events|] == events;
    assert s.wire + [] == s.wire;
  }

  /** Messages of our own: requests, and responses to nothing pending that are not suppressed. */
  predicate IsOwn(events: seq<Event>, e: Event) {
    e.Send? || (e.Respond? && !e.suppressed && Pending(events, e.chance).None?)
  }

  function PeerOf(e: Event): nat
    requires e.Send? || e.Respond?
  {
    if e.Send? then e.remote else e.chance.remote
  }

  /** A message of our own gets the next number, and is sent or waits behind those that wait. */
  lemma OwnExactly(firstMid: nat, events: seq<Event>, e: Event)
    requires IsOwn(events, e)
    ensures var s, t, remote := Run(firstMid, events), Run(firstMid, events + [e]), PeerOf(e);
      var own := Message(remote, s.nextMid, e.body, e.confirmable);
      && t.wire == s.wire + (if e.waits then [] else [own])
      && Backlog(t, remote) == Backlog(s, remote) + (if e.waits then [own] else [])
      && t.nextMid == (s.nextMid + 1) % 0x1_0000
  {
    assert (events + [e])[..|events|] == events;
    SendsOwn(Run(firstMid, events), PeerOf(e), e.body, e.confirmable, e.waits);
    if e.Respond? {
      ChancesArePending(firstMid, events, e.chance);
    }
    hide SendOwn, Pending, Backlog;
  }

  lemma SendsOwn(s: State, remote: nat, body: nat, confirmable: bool, waits: bool)
    ensures var t, own := SendOwn(s, remote, body, confirmable, waits), Message(remote, s.nextMid, body, confirmable);
      && t.wire == s.wire + (if waits then [] else [own])
      && Backlog(t, remote) == Backlog(s, remote) + (if waits then [own] else [])
      && t.nextMid == (s.nextMid + 1) % 0x1_0000
  {
    assert s.wire + [] == s.wire && Backlog(s, remote) + [] == Backlog(s, remote);
  }

  /** The next one that waits for a peer is the first, and it is sent. */
  lemma ContinueExactly(firstMid: nat, events: seq<Event>, remote: nat)
    ensures var s, t := Run(firstMid, events), Run(firstMid, events + [Continue(remote)]);
      var backlog := Backlog(s, remote);
      if backlog == [] then t == s
      else t.wire == s.wire + [backlog[0]] && Backlog(t, remote) == backlog[1..]
  {
    assert (events + [Continue(remote)])[..|events|] == events;
  }

  /** Nothing else sends anything, except a duplicate. */
  lemma SilentExactly(firstMid: nat, events: seq<Event>, e: Event)
    requires e.Discard? || e.Forget? || (e.Request? && !Remembered(events, e.key))
      || (e.AckTimeout? && Pending(events, e.chance).None?)
      || (e.Respond? && e.suppressed && Pending(events, e.chance).None?)
    ensures Run(firstMid, events + [e]).wire == Run(firstMid, events).wire
    ensures Run(firstMid, events + [e]).nextMid == Run(firstMid, events).nextMid
    ensures e.Discard? ==> Backlog(Run(firstMid, events + [e]), e.remote) == []
  {
    assert (events + [e])[..|events|] == events;
    if e.Respond? || e.AckTimeout? {
      ChancesArePending(firstMid, events, e.chance);
    } else if e.Request? {
      RecentIsRemembered(firstMid, events, e.key);
    }
  }

  /** A request is handed on exactly when it arrives and is not remembered, whether confirmable or not. */
  lemma HandedOnExactly(firstMid: nat, events: seq<Event>, e: Event)
    ensures var s, t := Run(firstMid, events), Run(firstMid, events + [e]);
      t.processed == s.processed +
        if e.Request? && e.kind != AckOrReset && !Remembered(events, e.key) then [e.key] else []
  {
    var s := Run(firstMid, events);
    assert (events + [e])[..|events|] == events;
    assert s.processed + [] == s.processed;
    StepLeaves(s, e);
    if e.Request? {
      RecentIsRemembered(firstMid, events, e.key);
    }
  }

  /** A request, the end of the delay, and the request again: acknowledged, without a body, and once more. */
  lemma DelayThenDuplicate(firstMid: nat)
    ensures var request, delay := Request(Key(1, 5), 9, Confirmable), AckTimeout(Chance(1, 9));
      && Run(firstMid, [request, delay]).wire == [Ack(1, 5, None)]
      && Run(firstMid, [request, delay, request]).wire == [Ack(1, 5, None), Ack(1, 5, None)]
      && Run(firstMid, [request, delay, request]).processed == [Key(1, 5)]
  {
    var request, delay := Request(Key(1, 5), 9, Confirmable), AckTimeout(Chance(1, 9));
    var events := [request, delay, request];
    assert events[..2] == [request, delay] && [request, delay][..1] == [request] && [request][..0] == [];
    assert Run(firstMid, []) == Start(firstMid);
    var s1 := Run(firstMid, [request]);
    assert s1 == Step(Start(firstMid), request);
    assert s1.chances == map[Chance(1, 9) := 5] && s1.recent == map[Key(1, 5) := None] && s1.processed == [Key(1, 5)];
    var s2 := Run(firstMid, [request, delay]);
    assert s2 == Step(s1, delay);
    assert s2.recent == map[Key(1, 5) := Some(Ack(1, 5, None))];
    assert s2.wire == [Ack(1, 5, None)] && s2.processed == [Key(1, 5)];
    assert Run(firstMid, events) == Step(s2, request);
  }

  /** Messages of our own so far. */
  function OwnCount(events: seq<Event>): nat {
    if events == [] then 0
    else
      var front, e := events[..|events| - 1], events[|events| - 1];
      OwnCount(front) + if IsOwn(front, e) then 1 else 0
  }

  /** Messages of our own are numbered one after the other, modulo 2^16. */
  lemma {:induction false} NumbersAreConsecutive(firstMid: nat, events: seq<Event>)
    requires firstMid < 0x1_0000
    ensures Run(firstMid, events).nextMid == (firstMid + OwnCount(events)) % 0x1_0000
  {
    if events != [] {
      var n := |events| - 1;
      var s, e := Run(firstMid, events[..n]), events[n];
      NumbersAreConsecutive(firstMid, events[..n]);
      assert events == events[..n] + [e];
      if IsOwn(events[..n], e) {
        OwnExactly(firstMid, events[..n], e);
      } else {
        if e.Respond? {
          ChancesArePending(firstMid, events[..n], e.chance);
        }
        KeepsNumber(s, e);
      }
      hide Step, Pending, Run;
    }
  }

  lemma KeepsNumber(s: State, e: Event)
    requires !e.Send? && (e.Respond? ==> e.suppressed || e.chance in s.chances)
    ensures Step(s, e).nextMid == s.nextMid
  {
  }

  // ---- No request is lost ----

  /** Confirmable requests with this number that were taken. */
  function TakenTimes(events: seq<Event>, key: Key): nat {
    if events == [] then 0
    else
      var front, e := events[..|events| - 1], events[|events| - 1];
      TakenTimes(front, key) +
      if e.Request? && e.kind == Confirmable && e.key == key && !Remembered(front, key) then 1 else 0
  }

  /** Those of them in whose place another request was taken under the same token. */
  function Displaced(events: seq<Event>, key: Key): nat {
    if events == [] then 0
    else
      var front, e := events[..|events| - 1], events[|events| - 1];
      Displaced(front, key) +
      if e.Request? && e.kind == Confirmable && !Remembered(front, e.key) && e.key.remote == key.remote
         && Pending(front, Chance(key.remote, e.token)) == Some(key.mid) then 1 else 0
  }

  lemma ChanceReplaced(s: State, chance: Chance, mid: nat, key: Key)
    ensures var t := s.(chances := s.chances[chance := mid]);
      |Open(t, key)| == |Open(s, key)| + (if key == Key(chance.remote, mid) then 1 else 0)
        - (if chance in s.chances && key == Key(chance.remote, s.chances[chance]) then 1 else 0)
  {
    var t := s.(chances := s.chances[chance := mid]);
    var others := Open(s, key) - {chance};
    if key == Key(chance.remote, mid) {
      assert Open(t, key) == others + {chance};
    } else {
      assert Open(t, key) == others;
    }
    if chance in s.chances && key == Key(chance.remote, s.chances[chance]) {
      assert Open(s, key) == others + {chance};
    } else {
      assert Open(s, key) == others;
    }
  }

  /** Every confirmable request that was taken has been acknowledged, is pending, or was displaced, exactly once. */
  lemma {:induction false} NoRequestIsLost(firstMid: nat, events: seq<Event>, key: Key)
    ensures var s := Run(firstMid, events);
      TakenTimes(events, key) == Count(s.acknowledged, key) + |Open(s, key)| + Displaced(events, key)
  {
    if events == [] {
      assert Open(Start(firstMid), key) == {};
    } else {
      var n := |events| - 1;
      var s, e := Run(firstMid, events[..n]), events[n];
      NoRequestIsLost(firstMid, events[..n], key);
      assert Run(firstMid, events) == Step(s, e);
      if e.Request? {
        RecentIsRemembered(firstMid, events[..n], e.key);
        ChancesArePending(firstMid, events[..n], Chance(e.key.remote, e.token));
        RequestBalance(s, e, key);
      } else {
        OthersBalance(s, e, key);
      }
      hide Step, Open, Count, Remembered, Pending;
    }
  }

  lemma RequestBalance(s: State, e: Event, key: Key)
    requires e.Request?
    ensures var t, chance := Step(s, e), Chance(e.key.remote, e.token);
      && t.acknowledged == s.acknowledged
      && |Open(t, key)| == |Open(s, key)| +
           if e.kind != Confirmable || e.key in s.recent then 0
           else (if key == e.key then 1 else 0)
                - (if chance in s.chances && key == Key(chance.remote, s.chances[chance]) then 1 else 0)
  {
    hide Open;
    StepLeaves(s, e);
    var t, chance := Step(s, e), Chance(e.key.remote, e.token);
    if e.kind != Confirmable || e.key in s.recent {
      OpenKept(s, t, key);
    } else {
      ChanceReplaced(s, chance, e.key.mid, key);
      OpenKept(t, s.(chances := s.chances[chance := e.key.mid]), key);
    }
  }

  lemma OthersBalance(s: State, e: Event, key: Key)
    requires !e.Request?
    ensures var t := Step(s, e);
      Count(t.acknowledged, key) + |Open(t, key)| == Count(s.acknowledged, key) + |Open(s, key)|
  {
    hide Open, Count;
    StepLeaves(s, e);
    var t := Step(s, e);
    if Acknowledges(s, e) {
      CountMore(s.acknowledged, Key(e.chance.remote, s.chances[e.chance]), key);
      ChanceTaken(s, e.chance, key);
      OpenKept(t, s.(chances := s.chances - {e.chance}), key);
    } else {
      OpenKept(s, t, key);
    }
  }
}
