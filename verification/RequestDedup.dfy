/**
 Incoming CoAP requests (sections 4.5 and 5.2 of RFC 7252): duplicates are answered
 from memory, and each confirmable request is acknowledged once, by its response if
 that comes in time. Whatever else goes to the peer passes through the same memory.
 */
module RequestDedup {
  import opened Bytes

  datatype Key = Key(remote: nat, mid: nat)

  datatype Packet =
    | Ack(remote: nat, mid: nat, response: Option<nat>)
    | Reset(remote: nat, mid: nat)
    | Message(remote: nat, mid: nat, body: nat, confirmable: bool)
  {
    function PacketKey(): Key {
      Key(remote, mid)
    }
  }

  /** The type of a message from a peer. */
  datatype Kind = Confirmable | NonConfirmable | AckOrReset

  /** A request waiting for its response: the response may travel in the acknowledgement. */
  datatype Chance = Chance(remote: nat, token: nat)

  /**
   `waiting` holds the messages of our own that wait for an exchange with the peer to end.
   `processed` and `acknowledged` record the requests handed on and those acknowledged for
   the first time, and `answers` the acknowledgement of each recent request.
   */
  datatype State = State(
    recent: map<Key, Option<Packet>>, chances: map<Chance, nat>, nextMid: nat, waiting: map<nat, seq<Packet>>,
    processed: seq<Key>, acknowledged: seq<Key>, answers: map<Key, Option<Packet>>, wire: seq<Packet>)

  /**
   Messages from a peer: requests, pings (empty confirmable messages) and responses, expected
   or not. Messages of our own: responses, and requests (`Send`), which wait if the peer has
   an exchange; `Continue` sends the next one that waits, `Discard` gives all up.
   */
  datatype Event =
    | Request(key: Key, token: nat, kind: Kind)
    | Ping(key: Key)
    | Response(key: Key, kind: Kind, expected: bool, multicast: bool)
    | Respond(chance: Chance, body: nat, suppressed: bool, confirmable: bool, waits: bool)
    | AckTimeout(chance: Chance)
    | Send(remote: nat, body: nat, confirmable: bool, waits: bool)
    | Continue(remote: nat)
    | Discard(remote: nat)
    | Forget(key: Key)

  function Start(firstMid: nat): State {
    State(map[], map[], firstMid, map[], [], [], map[], [])
  }

  /** What goes out is remembered if its number is that of a recent request. */
  function SendInitially(s: State, p: Packet): State {
    s.(recent := if p.PacketKey() in s.recent then s.recent[p.PacketKey() := Some(p)] else s.recent,
       wire := s.wire + [p])
  }

  function SendIfAny(s: State, p: Option<Packet>): State {
    if p.Some? then SendInitially(s, p.value) else s
  }

  function Acknowledge(s: State, key: Key, body: Option<nat>): State {
    var ack := Ack(key.remote, key.mid, body);
    SendInitially(s, ack).(acknowledged := s.acknowledged + [key],
                           answers := if key in s.answers then s.answers[key := Some(ack)] else s.answers)
  }

  /** A stored confirmable message is not sent again: an assertion on its missing monitor fails. */
  predicate SendsAgain(stored: Option<Packet>) {
    stored.Some? && !(stored.value.Message? && stored.value.confirmable)
  }

  function HandleRequest(s: State, key: Key, token: nat, kind: Kind): State {
    if key in s.recent then
      if kind == Confirmable && SendsAgain(s.recent[key]) then SendInitially(s, s.recent[key].value) else s
    else
      var s := s.(recent := s.recent[key := None], answers := s.answers[key := None]);
      if kind == AckOrReset then s
      else
        s.(processed := s.processed + [key],
           chances := if kind == Confirmable then s.chances[Chance(key.remote, token) := key.mid] else s.chances)
  }

  /** The next message of our own. */
  function Own(s: State, remote: nat, body: nat, confirmable: bool): Packet {
    Message(remote, s.nextMid, body, confirmable)
  }

  function Backlog(s: State, remote: nat): seq<Packet> {
    if remote in s.waiting then s.waiting[remote] else []
  }

  function SendOwn(s: State, remote: nat, body: nat, confirmable: bool, waits: bool): State {
    var p, s := Own(s, remote, body, confirmable), s.(nextMid := (s.nextMid + 1) % U16_LIMIT);
    if waits then s.(waiting := s.waiting[remote := Backlog(s, remote) + [p]]) else SendInitially(s, p)
  }

  function HandleResponse(s: State, chance: Chance, body: nat, suppressed: bool, confirmable: bool,
                          waits: bool): State {
    if chance in s.chances then
      Acknowledge(s.(chances := s.chances - {chance}), Key(chance.remote, s.chances[chance]),
                  if suppressed then None else Some(body))
    else if suppressed then s
    else SendOwn(s, chance.remote, body, confirmable, waits)
  }

  function HandleTimeout(s: State, chance: Chance): State {
    if chance in s.chances then
      Acknowledge(s.(chances := s.chances - {chance}), Key(chance.remote, s.chances[chance]), None)
    else s
  }

  function ContinueBacklog(s: State, remote: nat): State {
    var backlog := Backlog(s, remote);
    if backlog == [] then s
    else SendInitially(s.(waiting := s.waiting[remote := backlog[1..]]), backlog[0])
  }

  /** A ping is answered by a reset, and a confirmable response by an acknowledgement or, if unexpected, a reset. */
  function ReplyTo(e: Event): Option<Packet> {
    match e
    case Ping(key) => Some(Reset(key.remote, key.mid))
    case Response(key, kind, expected, multicast) =>
      if kind != Confirmable then None
      else if expected then Some(Ack(key.remote, key.mid, None))
      else if multicast then None
      else Some(Reset(key.remote, key.mid))
    case _ => None
  }

  function Step(s: State, e: Event): State {
    match e
    case Request(key, token, kind) => HandleRequest(s, key, token, kind)
    case Ping(_) => SendIfAny(s, ReplyTo(e))
    case Response(_, _, _, _) => SendIfAny(s, ReplyTo(e))
    case Respond(chance, body, suppressed, confirmable, waits) =>
      HandleResponse(s, chance, body, suppressed, confirmable, waits)
    case AckTimeout(chance) => HandleTimeout(s, chance)
    case Send(remote, body, confirmable, waits) => SendOwn(s, remote, body, confirmable, waits)
    case Continue(remote) => ContinueBacklog(s, remote)
    case Discard(remote) => s.(waiting := s.waiting - {remote})
    case Forget(key) => s.(recent := s.recent - {key}, answers := s.answers - {key})
  }

  function Run(firstMid: nat, events: seq<Event>): State {
    if events == [] then Start(firstMid)
    else Step(Run(firstMid, events[..|events| - 1]), events[|events| - 1])
  }

  // ---- Once processed, once acknowledged ----

  function Count(keys: seq<Key>, key: Key): nat {
    multiset(keys)[key]
  }

  lemma CountMore(keys: seq<Key>, k: Key, key: Key)
    ensures Count(keys + [k], key) == Count(keys, key) + if k == key then 1 else 0
  {
    assert multiset(keys + [k]) == multiset(keys) + multiset{k};
  }

  function Forgotten(events: seq<Event>, key: Key): nat {
    if events == [] then 0
    else Forgotten(events[..|events| - 1], key) + if events[|events| - 1] == Forget(key) then 1 else 0
  }

  /** Tokens whose request has the number `key.mid` and is not acknowledged yet. */
  function Open(s: State, key: Key): set<Chance> {
    set c | c in s.chances && c.remote == key.remote && s.chances[c] == key.mid
  }

  /** The event acknowledges a request. */
  predicate Acknowledges(s: State, e: Event) {
    (e.Respond? || e.AckTimeout?) && e.chance in s.chances
  }

  /** What other events than requests and their acknowledgements leave alone. */
  lemma StepLeaves(s: State, e: Event)
    ensures var t := Step(s, e);
      && (!e.Request? ==> t.processed == s.processed)
      && (!Acknowledges(s, e) ==> t.acknowledged == s.acknowledged)
      && (!e.Request? && !Acknowledges(s, e) ==>
            && t.chances == s.chances
            && t.answers == if e.Forget? then s.answers - {e.key} else s.answers)
      && (!e.Request? ==> t.recent.Keys == if e.Forget? then s.recent.Keys - {e.key} else s.recent.Keys)
  {
    hide Own, Backlog;
  }

  /** While a request is remembered it is not processed again. */
  lemma {:induction false} ProcessedOnce(firstMid: nat, events: seq<Event>, key: Key)
    ensures var s := Run(firstMid, events);
      Count(s.processed, key) <= Forgotten(events, key) + if key in s.recent then 1 else 0
  {
    if events != [] {
      var n := |events| - 1;
      var s := Run(firstMid, events[..n]);
      ProcessedOnce(firstMid, events[..n], key);
      if events[n].Request? {
        CountMore(s.processed, events[n].key, key);
      } else {
        hide Step, Count;
        StepLeaves(s, events[n]);
        assert Run(firstMid, events) == Step(s, events[n]);
      }
    }
  }

  lemma ChanceTaken(s: State, chance: Chance, key: Key)
    requires chance in s.chances
    ensures var t := s.(chances := s.chances - {chance});
      |Open(t, key)| == |Open(s, key)| - if key == Key(chance.remote, s.chances[chance]) then 1 else 0
  {
    var t := s.(chances := s.chances - {chance});
    if key == Key(chance.remote, s.chances[chance]) {
      assert Open(t, key) == Open(s, key) - {chance};
    } else {
      assert Open(t, key) == Open(s, key);
    }
  }

  lemma ChanceOpened(s: State, chance: Chance, mid: nat, key: Key)
    ensures var t := s.(chances := s.chances[chance := mid]);
      |Open(t, key)| <= |Open(s, key)| + if key == Key(chance.remote, mid) then 1 else 0
  {
    var t := s.(chances := s.chances[chance := mid]);
    if key == Key(chance.remote, mid) {
      assert Open(t, key) == Open(s, key) + {chance};
    } else {
      SubsetSize(Open(t, key), Open(s, key));
    }
  }

  lemma OpenKept(s: State, t: State, key: Key)
    requires s.chances == t.chances
    ensures Open(s, key) == Open(t, key)
  {
  }

  lemma StepAcknowledges(s: State, e: Event, key: Key)
    requires Count(s.acknowledged, key) + |Open(s, key)| <= Count(s.processed, key)
    ensures var t := Step(s, e); Count(t.acknowledged, key) + |Open(t, key)| <= Count(t.processed, key)
  {
    hide Open, Count;
    var t := Step(s, e);
    StepLeaves(s, e);
    if e.Request? {
      RequestAcknowledges(s, e.key, e.token, e.kind, key);
    } else if Acknowledges(s, e) {
      CountMore(s.acknowledged, Key(e.chance.remote, s.chances[e.chance]), key);
      ChanceTaken(s, e.chance, key);
      OpenKept(t, s.(chances := s.chances - {e.chance}), key);
    } else {
      hide Step;
      OpenKept(s, t, key);
    }
  }

  lemma RequestAcknowledges(s: State, k: Key, token: nat, kind: Kind, key: Key)
    requires Count(s.acknowledged, key) + |Open(s, key)| <= Count(s.processed, key)
    ensures var t := HandleRequest(s, k, token, kind);
      Count(t.acknowledged, key) + |Open(t, key)| <= Count(t.processed, key)
  {
    hide Open, Count;
    var t, chance := HandleRequest(s, k, token, kind), Chance(k.remote, token);
    if k in s.recent || kind == AckOrReset {
      OpenKept(s, t, key);
    } else {
      CountMore(s.processed, k, key);
      ChanceOpened(s, chance, k.mid, key);
      OpenKept(t, if kind == Confirmable then s.(chances := s.chances[chance := k.mid]) else s, key);
    }
  }

  /** No request is acknowledged more often than it was processed; duplicates bring no new acknowledgement. */
  lemma {:induction false} AcknowledgedOnce(firstMid: nat, events: seq<Event>, key: Key)
    ensures var s := Run(firstMid, events);
      Count(s.acknowledged, key) + |Open(s, key)| <= Count(s.processed, key)
  {
    if events != [] {
      AcknowledgedOnce(firstMid, events[..|events| - 1], key);
      StepAcknowledges(Run(firstMid, events[..|events| - 1]), events[|events| - 1], key);
    }
  }

  // ---- What a duplicate gets ----

  /** What is stored for each recent request is its acknowledgement, if it has one yet, and nothing else. */
  predicate Faithful(s: State) {
    s.recent == s.answers
  }

  /** What the event sends for the first time, other than the acknowledgement of a request. */
  function Foreign(s: State, e: Event): Option<Packet> {
    match e
    case Ping(_) => ReplyTo(e)
    case Response(_, _, _, _) => ReplyTo(e)
    case Respond(chance, body, suppressed, confirmable, waits) =>
      if chance in s.chances || suppressed || waits then None else Some(Own(s, chance.remote, body, confirmable))
    case Send(remote, body, confirmable, waits) => if waits then None else Some(Own(s, remote, body, confirmable))
    case Continue(remote) => if Backlog(s, remote) == [] then None else Some(Backlog(s, remote)[0])
    case _ => None
  }

  /** It has not the number of a recent request, or is what is stored anyway. */
  predicate NumberIsFree(s: State, e: Event) {
    var p := Foreign(s, e);
    p.Some? && p.value.PacketKey() in s.recent ==> s.recent[p.value.PacketKey()] == p
  }

  predicate Keyed(s: State) {
    && s.recent.Keys == s.answers.Keys
    && forall k :: k in s.recent && s.recent[k].Some? ==> s.recent[k].value.PacketKey() == k
  }

  lemma {:induction false} RunIsKeyed(firstMid: nat, events: seq<Event>)
    ensures Keyed(Run(firstMid, events))
  {
    if events != [] {
      RunIsKeyed(firstMid, events[..|events| - 1]);
      StepIsKeyed(Run(firstMid, events[..|events| - 1]), events[|events| - 1]);
    }
  }

  lemma SendKeepsKeyed(s: State, p: Packet)
    requires Keyed(s)
    ensures Keyed(SendInitially(s, p))
  {
  }

  lemma StepIsKeyed(s: State, e: Event)
    requires Keyed(s)
    ensures Keyed(Step(s, e))
  {
    hide Backlog;
    forall t, p | Keyed(t) ensures Keyed(SendInitially(t, p)) {
      SendKeepsKeyed(t, p);
    }
    hide SendInitially;
  }

  /**
   What is stored for a request stays its acknowledgement exactly as long as nothing else
   that is sent, with a number of our own or one that the peer chose, has the number of a
   recent request and differs from what is stored.
   */
  lemma StoredIsOwnExactly(s: State, e: Event)
    requires Keyed(s) && Faithful(s)
    ensures Faithful(Step(s, e)) <==> NumberIsFree(s, e)
  {
    hide Own, Backlog;
    var t, p := Step(s, e), Foreign(s, e);
    if p.Some? {
      var key := p.value.PacketKey();
      assert t.answers == s.answers;
      assert t.recent == if key in s.recent then s.recent[key := p] else s.recent;
      if key in s.recent {
        assert t.recent[key] == p && s.answers[key] == s.recent[key];
        assert s.recent[key] == p ==> t.recent == s.recent;
      }
    } else if e.Request? && e.key in s.recent && s.recent[e.key].Some? {
      assert s.recent[e.key := s.recent[e.key]] == s.recent;
    }
  }

  /** After every first part of the run. */
  predicate AlwaysFaithful(firstMid: nat, events: seq<Event>) {
    Faithful(Run(firstMid, events)) && (events == [] || AlwaysFaithful(firstMid, events[..|events| - 1]))
  }

  /** At every event of the run. */
  predicate AlwaysFree(firstMid: nat, events: seq<Event>) {
    events == [] ||
    (AlwaysFree(firstMid, events[..|events| - 1])
     && NumberIsFree(Run(firstMid, events[..|events| - 1]), events[|events| - 1]))
  }

  /** Over every run: what is stored is the acknowledgement throughout exactly if that never happens. */
  lemma {:induction false} StoredIsOwnThroughout(firstMid: nat, events: seq<Event>)
    ensures AlwaysFaithful(firstMid, events) <==> AlwaysFree(firstMid, events)
  {
    hide Faithful, NumberIsFree, Step, Start;
    if events == [] {
      StartIsFaithful(firstMid);
    } else {
      var n := |events| - 1;
      StoredIsOwnThroughout(firstMid, events[..n]);
      RunIsKeyed(firstMid, events[..n]);
      if Faithful(Run(firstMid, events[..n])) {
        StoredIsOwnExactly(Run(firstMid, events[..n]), events[n]);
      }
    }
  }

  lemma StartIsFaithful(firstMid: nat)
    ensures Faithful(Start(firstMid))
  {
  }

  /**
   In every run a duplicate changes nothing but the wire. A confirmable one whose request
   was acknowledged is sent the acknowledgement again exactly if that is still what is
   stored, and one whose request was not is sent nothing exactly if nothing, or a
   confirmable message of our own, is.
   */
  lemma DuplicateIsAnswered(firstMid: nat, events: seq<Event>, key: Key, token: nat, kind: Kind)
    requires key in Run(firstMid, events).recent
    ensures var s := Run(firstMid, events); var t := Step(s, Request(key, token, kind));
      && key in s.answers && AcksOnly(s.answers) && t == s.(wire := t.wire)
      && (kind != Confirmable ==> t.wire == s.wire)
      && (kind == Confirmable && s.answers[key].Some? ==>
            (t.wire == s.wire + [s.answers[key].value] <==> s.recent[key] == s.answers[key]))
      && (kind == Confirmable && s.answers[key].None? ==> (t.wire == s.wire <==> !SendsAgain(s.recent[key])))
  {
    RunIsKeyed(firstMid, events);
    AnswersAreAcks(firstMid, events);
    var s := Run(firstMid, events);
    if s.recent[key].Some? {
      var stored := s.recent[key].value;
      assert s.recent[key := s.recent[key]] == s.recent;
      assert (s.wire + [stored])[|s.wire|] == stored && |s.wire + [stored]| == |s.wire| + 1;
      if s.answers[key].Some? {
        assert (s.wire + [s.answers[key].value])[|s.wire|] == s.answers[key].value;
      }
    }
  }

  /** Answers are acknowledgements of their requests. */
  predicate AcksOnly(answers: map<Key, Option<Packet>>) {
    forall k :: k in answers && answers[k].Some? ==> answers[k].value.Ack? && answers[k].value.PacketKey() == k
  }

  lemma {:induction false} AnswersAreAcks(firstMid: nat, events: seq<Event>)
    ensures AcksOnly(Run(firstMid, events).answers)
  {
    if events != [] {
      AnswersAreAcks(firstMid, events[..|events| - 1]);
      StepKeepsAcks(Run(firstMid, events[..|events| - 1]), events[|events| - 1]);
    }
  }

  lemma StepKeepsAcks(s: State, e: Event)
    requires AcksOnly(s.answers)
    ensures AcksOnly(Step(s, e).answers)
  {
    StepLeaves(s, e);
    if !e.Request? && !Acknowledges(s, e) {
      hide Step;
    }
  }

  /** A ping with the number of an answered request: the duplicate then gets a reset. */
  lemma PingReplacesAnswer(firstMid: nat, key: Key, token: nat, body: nat)
    ensures var request := Request(key, token, Confirmable);
      var respond := Respond(Chance(key.remote, token), body, false, true, false);
      var s := Run(firstMid, [request, respond, Ping(key), request]);
      var ack, reset := Ack(key.remote, key.mid, Some(body)), Reset(key.remote, key.mid);
      && s.wire == [ack, reset, reset] && s.processed == [key] && s.nextMid == firstMid
      && s.answers == map[key := Some(ack)]
  {
    var request := Request(key, token, Confirmable);
    var respond := Respond(Chance(key.remote, token), body, false, true, false);
    RunOfFour(firstMid, request, respond, Ping(key), request);
  }

  lemma RunOfFour(firstMid: nat, a: Event, b: Event, c: Event, d: Event)
    ensures Run(firstMid, [a, b, c, d]) == Step(Step(Step(Step(Start(firstMid), a), b), c), d)
  {
    hide Step, Start;
    assert [a][..0] == [] && [a, b][..1] == [a] && [a, b, c][..2] == [a, b] && [a, b, c, d][..3] == [a, b, c];
    assert Run(firstMid, [a]) == Step(Run(firstMid, []), a);
    assert Run(firstMid, [a, b]) == Step(Run(firstMid, [a]), b);
    assert Run(firstMid, [a, b, c]) == Step(Run(firstMid, [a, b]), c);
  }

  /** A confirmable message of our own with the number of an answered request: the duplicate gets nothing. */
  lemma OwnMessageSilences(token: nat, key: Key, body: nat, request: nat)
    ensures var r := Request(key, token, Confirmable);
      var s := Run(key.mid, [r, Respond(Chance(key.remote, token), body, false, true, false),
                             Send(key.remote, request, true, false), r]);
      s.wire == [Ack(key.remote, key.mid, Some(body)), Message(key.remote, key.mid, request, true)]
  {
    var r := Request(key, token, Confirmable);
    RunOfFour(key.mid, r, Respond(Chance(key.remote, token), body, false, true, false),
              Send(key.remote, request, true, false), r);
  }

  // ---- The code ----

  class Deduplicator {
    var recent: map<Key, Option<Packet>>
    var chances: map<Chance, nat>
    var nextMid: nat
    var waiting: map<nat, seq<Packet>>
    var processed: seq<Key>
    var acknowledged: seq<Key>
    var answers: map<Key, Option<Packet>>
    var wire: seq<Packet>

    constructor (firstMid: nat)
      ensures Now() == Start(firstMid)
    {
      recent, chances, nextMid, waiting, processed, acknowledged, answers, wire :=
        map[], map[], firstMid, map[], [], [], map[], [];
    }

    function Now(): State
      reads this
    {
      State(recent, chances, nextMid, waiting, processed, acknowledged, answers, wire)
    }

    method SendFirst(p: Packet)
      modifies this`recent, this`wire
      ensures Now() == SendInitially(old(Now()), p)
    {
      if p.PacketKey() in recent {
        recent := recent[p.PacketKey() := Some(p)];
      }
      wire := wire + [p];
    }

    method Deduplicate(key: Key, kind: Kind) returns (duplicate: bool)
      modifies this`recent, this`answers, this`wire
      ensures duplicate <==> key in old(recent)
      ensures Now() ==
        if !duplicate then old(Now()).(recent := old(recent)[key := None], answers := old(answers)[key := None])
        else if kind == Confirmable && SendsAgain(old(recent)[key]) then
          SendInitially(old(Now()), old(recent)[key].value)
        else old(Now())
    {
      if key in recent {
        if kind == Confirmable {
          if recent[key].Some? {
            var stored := recent[key].value;
            if !(stored.Message? && stored.confirmable) {
              SendFirst(stored);
            }
          }
        }
        return true;
      }
      recent := recent[key := None];
      answers := answers[key := None];
      return false;
    }

    method Receive(key: Key, token: nat, kind: Kind)
      modifies this
      ensures Now() == Step(old(Now()), Request(key, token, kind))
    {
      var duplicate := Deduplicate(key, kind);
      if duplicate || kind == AckOrReset {
        return;
      }
      if kind == Confirmable {
        var chance := Chance(key.remote, token);
        if chance in chances {
          chances := chances - {chance};
        }
        chances := chances[chance := key.mid];
      }
      processed := processed + [key];
    }

    method ProcessPing(key: Key)
      modifies this`recent, this`wire
      ensures Now() == Step(old(Now()), Ping(key))
    {
      SendFirst(Reset(key.remote, key.mid));
    }

    method ReceiveResponse(key: Key, kind: Kind, expected: bool, multicast: bool)
      modifies this`recent, this`wire
      ensures Now() == Step(old(Now()), Response(key, kind, expected, multicast))
    {
      if expected {
        if kind == Confirmable {
          SendFirst(Ack(key.remote, key.mid, None));
        }
      } else if kind == Confirmable && !multicast {
        SendFirst(Reset(key.remote, key.mid));
      }
    }

    /** A message without a number of its own gets the next one, and is sent or has to wait. */
    method SendMessage(remote: nat, body: nat, confirmable: bool, waits: bool)
      modifies this`nextMid, this`waiting, this`recent, this`wire
      ensures Now() == Step(old(Now()), Send(remote, body, confirmable, waits))
    {
      var p := Message(remote, nextMid, body, confirmable);
      nextMid := (nextMid + 1) % U16_LIMIT;
      if waits {
        waiting := waiting[remote := (if remote in waiting then waiting[remote] else []) + [p]];
      } else {
        SendFirst(p);
      }
    }

    method NextOfBacklog(remote: nat)
      modifies this`waiting, this`recent, this`wire
      ensures Now() == Step(old(Now()), Continue(remote))
    {
      if remote in waiting && waiting[remote] != [] {
        var p := waiting[remote][0];
        waiting := waiting[remote := waiting[remote][1..]];
        SendFirst(p);
      }
    }

    method SendResponse(chance: Chance, body: nat, suppressed: bool, confirmable: bool, waits: bool)
      modifies this
      ensures Now() == Step(old(Now()), Respond(chance, body, suppressed, confirmable, waits))
    {
      if chance in chances {
        var mid := chances[chance];
        chances := chances - {chance};
        RecordAnswer(Ack(chance.remote, mid, if suppressed then None else Some(body)));
      } else if !suppressed {
        SendMessage(chance.remote, body, confirmable, waits);
      }
    }

    /** Acknowledges a request for the first time. */
    method RecordAnswer(ack: Packet)
      requires ack.Ack?
      modifies this`recent, this`wire, this`acknowledged, this`answers
      ensures Now() == Acknowledge(old(Now()), ack.PacketKey(), ack.response)
    {
      SendFirst(ack);
      acknowledged := acknowledged + [ack.PacketKey()];
      if ack.PacketKey() in answers {
        answers := answers[ack.PacketKey() := Some(ack)];
      }
    }

    method ResponseTookTooLong(chance: Chance)
      requires chance in chances
      modifies this
      ensures Now() == Step(old(Now()), AckTimeout(chance))
    {
      var mid := chances[chance];
      chances := chances - {chance};
      RecordAnswer(Ack(chance.remote, mid, None));
    }
  }
}
