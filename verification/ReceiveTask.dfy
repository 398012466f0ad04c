/**
 The task that takes portions from a link into a small buffer and feeds the bundle
 parser, with block data going straight into its destination. A round stops behind the
 first parser that ends, so bundles that arrive together wait for later rounds: the
 task is a queue with one service each round, and what waits is lost with the link.
 */
module ReceiveTask {
  import opened Bytes
  import Bundle6
  import Bundle6Serializer
  import Bundle6SizeLimit
  import opened Bundle6Parser
  import opened Bundle6RoundTrip
  import opened ReceiveStream

  const BUFFER_SIZE: nat := 64

  datatype Task = Task(receiver: Receiver, buffer: seq<Byte>)

  /** What the link does in a round: bytes it gives, whether it works, and whether it was silent too long. */
  datatype Read = Read(data: seq<Byte>, ok: bool, late: bool)

  predicate Orderly(t: Task) {
    Steady(t.receiver) && |t.buffer| <= BUFFER_SIZE
  }

  function Start(structSize: nat): Task {
    Task(Fresh(structSize), [])
  }

  /** The link is asked for what a bulk read still needs, or for what fits the buffer. */
  predicate Fits(t: Task, e: Read) {
    if t.receiver.parser.bulkRead then
      if t.receiver.parser.nextBytes <= |t.buffer| then e == Read([], true, false)
      else
        && |t.buffer| + |e.data| <= t.receiver.parser.nextBytes
        && (e.ok && !e.late ==> |t.buffer| + |e.data| == t.receiver.parser.nextBytes)
    else |t.buffer| + |e.data| <= BUFFER_SIZE && (!e.ok ==> e.data == [])
  }

  // ---- One round ----

  /** Reading from the buffer ends with the first parser that ends. */
  function BufferOut(structSize: nat, r: Receiver, bytes: seq<Byte>): (res: (Receiver, seq<Byte>))
    requires Steady(r) && !r.parser.bulkRead
    ensures Steady(res.0) && |res.1| <= |bytes|
    ensures |res.1| == |bytes| ==> res == (r, bytes)
  {
    hide ReadBuffer, Valid, Reset;
    if bytes == [] || Stuck(r, bytes) then (r, bytes)
    else
      ReadBufferSplits(r.parser, bytes, []);
      var (p, left) := ReadBuffer(r.parser, bytes);
      (Settle(structSize, r, p), left)
  }

  function ResetReceiver(structSize: nat, r: Receiver): Receiver {
    r.(parser := Reset(structSize), selected := false)
  }

  lemma ResetIsSteady(structSize: nat, r: Receiver)
    ensures Steady(ResetReceiver(structSize, r)) && !ResetReceiver(structSize, r).parser.bulkRead
  {
  }

  /** All the data of a bulk read is there; `rest` follows it in the buffer. */
  function BulkOut(structSize: nat, r: Receiver, data: seq<Byte>, rest: seq<Byte>): (res: (Receiver, seq<Byte>))
    requires Steady(r) && r.parser.bulkRead
    ensures Steady(res.0) && |res.1| <= |rest|
  {
    hide FinishBulk, ReadBuffer, Valid;
    FinishBulkKeepsValid(r.parser, data);
    var s := Settle(structSize, r, FinishBulk(r.parser, data));
    if rest == [] then (s, []) else BufferOut(structSize, s, rest)
  }

  /** The receiver and the unparsed bytes when the parsing of a round is over. */
  function Parsed(structSize: nat, t: Task, e: Read): (res: (Receiver, seq<Byte>))
    requires Orderly(t) && Fits(t, e)
    ensures Steady(res.0) && |res.1| <= BUFFER_SIZE
  {
    hide Valid, FinishBulk, ReadBuffer, Settle, Reset;
    ResetIsSteady(structSize, t.receiver);
    var r, size := t.receiver, t.receiver.parser.nextBytes;
    if r.parser.bulkRead then
      if size <= |t.buffer| then BulkOut(structSize, r, t.buffer[..size], t.buffer[size..])
      else if e.ok && !e.late then BulkOut(structSize, r, t.buffer + e.data, [])
      else (ResetReceiver(structSize, r), [])
    else if !e.ok then (ResetReceiver(structSize, r), [])
    else BufferOut(structSize, if e.late then ResetReceiver(structSize, r) else r, t.buffer + e.data)
  }

  /** Bytes in the buffer while a round parses. */
  function Filled(t: Task, e: Read): nat {
    |t.buffer| + if t.receiver.parser.bulkRead then 0 else |e.data|
  }

  /** A full buffer of which nothing was parsed is given up. */
  predicate GivesUp(structSize: nat, t: Task, e: Read)
    requires Orderly(t) && Fits(t, e)
  {
    Filled(t, e) == BUFFER_SIZE && |Parsed(structSize, t, e).1| == BUFFER_SIZE
  }

  function AfterRound(structSize: nat, t: Task, e: Read): (s: Task)
    requires Orderly(t) && Fits(t, e)
    ensures Orderly(s)
  {
    hide Parsed, Valid, Reset;
    var (r, left) := Parsed(structSize, t, e);
    ResetIsSteady(structSize, r);
    if GivesUp(structSize, t, e) then Task(ResetReceiver(structSize, r), []) else Task(r, left)
  }

  // ---- What a round keeps ----

  /** Nothing is given up in the round. */
  predicate Smooth(structSize: nat, t: Task, e: Read)
    requires Orderly(t) && Fits(t, e)
  {
    e.ok && !e.late && !GivesUp(structSize, t, e)
  }

  /** The parser waits for an empty block, which takes a round of its own. */
  predicate AtEmptyBlock(t: Task) {
    t.receiver.parser.bulkRead && t.receiver.parser.nextBytes == 0
  }

  /** Between rounds bulk data is wanted only if the buffer does not hold it. */
  predicate Standing(t: Task) {
    t.receiver.parser.bulkRead ==>
      t.receiver.parser.nextBytes > |t.buffer| || (t.receiver.parser.nextBytes == 0 && t.buffer == [])
  }

  lemma BufferOutContinues(structSize: nat, r: Receiver, bytes: seq<Byte>)
    requires Steady(r) && !r.parser.bulkRead
    ensures var (s, left) := BufferOut(structSize, r, bytes);
      && Continues(structSize, r, bytes, s, left)
      && (s.parser.bulkRead ==> s.parser.nextBytes > |left| || (s.parser.nextBytes == 0 && left == []))
  {
    hide ReadBuffer, Valid, Drain, Reset, Continues;
    if bytes == [] || Stuck(r, bytes) {
      ContinuesSelf(structSize, r, bytes);
    } else {
      ReadContinues(structSize, r, bytes);
      ReadBufferStops(r.parser, bytes);
    }
  }

  lemma BulkOutContinues(structSize: nat, r: Receiver, data: seq<Byte>, rest: seq<Byte>)
    requires Steady(r) && r.parser.bulkRead && |data| == r.parser.nextBytes
    ensures var (s, left) := BulkOut(structSize, r, data, rest);
      && Continues(structSize, r, data + rest, s, left)
      && (s.parser.bulkRead ==> s.parser.nextBytes > |left| || (s.parser.nextBytes == 0 && left == []))
  {
    hide Valid, Drain, Reset, FinishBulk, BufferOut, Continues;
    FinishBulkKeepsValid(r.parser, data);
    var s := Settle(structSize, r, FinishBulk(r.parser, data));
    BulkContinues(structSize, r, data, rest);
    if rest != [] {
      BufferOutContinues(structSize, s, rest);
      var (q, left) := BufferOut(structSize, s, rest);
      ContinuesOn(structSize, r, data + rest, s, rest, q, left);
    }
  }

  /** With its data complete, a bulk read is one round of parsing. */
  lemma BulkContinues(structSize: nat, r: Receiver, data: seq<Byte>, rest: seq<Byte>)
    requires Steady(r) && r.parser.bulkRead && |data| == r.parser.nextBytes
    ensures var p := FinishBulk(r.parser, data);
      && (p.status == Status.Good ==> Valid(p)) && !p.bulkRead
      && Continues(structSize, r, data + rest, Settle(structSize, r, p), rest)
  {
    hide Valid, Reset, FinishBulk, Drain, ReadByte, Settle;
    FinishBulkKeepsValid(r.parser, data);
    assert data[..|data|] == data && data[|data|..] == [];
    FeedsBulk(r.parser, data);
    var p := FinishBulk(r.parser, data);
    forall more: seq<Byte>
      ensures Drain(structSize, r, data + rest + more) == Drain(structSize, Settle(structSize, r, p), rest + more)
    {
      DrainRound(structSize, r, data, rest + more);
      assert data + rest + more == data + (rest + more) && [] + (rest + more) == rest + more;
    }
  }

  lemma FeedsBulk(p: Parser, data: seq<Byte>)
    requires p.status == Status.Good && Valid(p) && p.bulkRead && |data| == p.nextBytes
    ensures FinishBulk(p, data).status == Status.Good ==> Valid(FinishBulk(p, data))
    ensures Feed(p, data) == (FinishBulk(p, data), [])
  {
    hide Valid, FinishBulk;
    FinishBulkKeepsValid(p, data);
    assert data[..|data|] == data && data[|data|..] == [];
  }

  /** Behind a smooth round, task and link amount to what they did in front of it. */
  lemma RoundContinues(structSize: nat, t: Task, e: Read)
    requires Orderly(t) && Fits(t, e) && Smooth(structSize, t, e)
    ensures var s := AfterRound(structSize, t, e);
      && Standing(s)
      && Continues(structSize, t.receiver, t.buffer + e.data, s.receiver, s.buffer)
  {
    hide Valid, Reset, FinishBulk, ReadBuffer, Settle, BulkOut, BufferOut, Continues, Drain;
    var size := t.receiver.parser.nextBytes;
    if t.receiver.parser.bulkRead {
      if size <= |t.buffer| {
        BulkOutContinues(structSize, t.receiver, t.buffer[..size], t.buffer[size..]);
        assert t.buffer + e.data == t.buffer[..size] + t.buffer[size..];
      } else {
        BulkOutContinues(structSize, t.receiver, t.buffer + e.data, []);
        assert t.buffer + e.data + [] == t.buffer + e.data;
      }
    } else {
      BufferOutContinues(structSize, t.receiver, t.buffer + e.data);
    }
  }

  // ---- One service each round ----

  function Serve(n: nat): nat {
    if n == 0 then 0 else n - 1
  }

  /** Parsers that can end with what is in the buffer; an empty block is served by the next round in any case. */
  function Waiting(structSize: nat, t: Task): nat
    requires Orderly(t)
  {
    if AtEmptyBlock(t) then 0 else Endings(structSize, t.receiver, t.buffer)
  }

  lemma BufferOutServes(structSize: nat, r: Receiver, bytes: seq<Byte>)
    requires Steady(r) && !r.parser.bulkRead
    ensures var (s, left) := BufferOut(structSize, r, bytes);
      var n := Endings(structSize, r, bytes);
      && Endings(structSize, s, left) + |s.outcomes| == n + |r.outcomes|
      && (s.parser.bulkRead && s.parser.nextBytes == 0 ==> n <= 1 && |s.outcomes| == |r.outcomes|)
      && (!(s.parser.bulkRead && s.parser.nextBytes == 0) ==> Endings(structSize, s, left) == Serve(n))
  {
    hide Valid, Reset, Drain, ReadBuffer, Feed;
    BufferOutContinues(structSize, r, bytes);
    var (s, left) := BufferOut(structSize, r, bytes);
    ContinuesNow(structSize, r, bytes, s, left);
    if Stuck(r, bytes) {
      StuckStays(structSize, r, bytes);
    } else if bytes == [] {
      QuietStays(structSize, r, bytes);
    } else {
      ReadBufferSplits(r.parser, bytes, []);
      ReadBufferStops(r.parser, bytes);
      var (p, _) := ReadBuffer(r.parser, bytes);
      if p.status == Status.Good {
        if Quiet(p, left) {
          QuietStays(structSize, s, left);
        } else {
          EmptyBlockEndsOnce(structSize, s);
        }
      }
    }
  }

  lemma EmptyBlockEndsOnce(structSize: nat, r: Receiver)
    requires Steady(r) && r.parser.bulkRead && r.parser.nextBytes == 0
    ensures Endings(structSize, r, []) <= 1
  {
    BulkEndsOnce(structSize, r, []);
  }

  lemma BulkEndsOnce(structSize: nat, r: Receiver, data: seq<Byte>)
    requires Steady(r) && r.parser.bulkRead && |data| == r.parser.nextBytes
    ensures Endings(structSize, r, data) <= 1
    ensures var s := BulkOut(structSize, r, data, []).0;
      && !s.parser.bulkRead && Endings(structSize, s, []) == 0
      && |s.outcomes| == |r.outcomes| + Endings(structSize, r, data)
  {
    hide Valid, Reset, FinishBulk, Drain;
    FinishBulkKeepsValid(r.parser, data);
    BulkContinues(structSize, r, data, []);
    assert data + [] == data;
    var s := Settle(structSize, r, FinishBulk(r.parser, data));
    ContinuesNow(structSize, r, data, s, []);
    ResetIsSteady(structSize, r);
    if Stuck(s, []) {
      StuckStays(structSize, s, []);
    } else {
      QuietStays(structSize, s, []);
    }
  }

  /**
   What waits behind a round is what waited and what the link brought, less one: the
   task is a queue that serves one parser a round. What is handed over is what no longer waits.
   */
  lemma RoundServes(structSize: nat, t: Task, e: Read)
    requires Orderly(t) && Standing(t) && Fits(t, e) && Smooth(structSize, t, e)
    ensures var s := AfterRound(structSize, t, e);
      var before, all := Endings(structSize, t.receiver, t.buffer), Endings(structSize, t.receiver, t.buffer + e.data);
      && before <= all
      && Waiting(structSize, s) == Serve(Waiting(structSize, t) + all - before)
      && Endings(structSize, s.receiver, s.buffer) + |s.receiver.outcomes| == all + |t.receiver.outcomes|
      && (AtEmptyBlock(s) ==> Endings(structSize, s.receiver, s.buffer) <= 1)
  {
    hide Valid, Reset, FinishBulk, BulkOut, BufferOut, Drain, Steady;
    var r, size := t.receiver, t.receiver.parser.nextBytes;
    EndingsGrow(structSize, r, t.buffer, e.data);
    if r.parser.bulkRead {
      if size <= |t.buffer| {
        assert t.buffer[..size] == [] && t.buffer[size..] == [] && t.buffer + e.data == [];
        BulkEndsOnce(structSize, r, []);
      } else {
        SteadyMeans(r);
        QuietStays(structSize, r, t.buffer);
        BulkEndsOnce(structSize, r, t.buffer + e.data);
      }
    } else {
      BufferOutServes(structSize, r, t.buffer + e.data);
      BufferOutContinues(structSize, r, t.buffer + e.data);
    }
  }

  lemma EndingsGrow(structSize: nat, r: Receiver, a: seq<Byte>, b: seq<Byte>)
    requires Steady(r)
    ensures Endings(structSize, r, a) <= Endings(structSize, r, a + b)
  {
    hide Steady, Drain;
    DrainSplits(structSize, r, a, b);
    var (q, left) := Drain(structSize, r, a);
    DrainGrows(structSize, r, a);
    DrainGrows(structSize, q, left + b);
  }

  // ---- Whole runs ----

  /** The bytes that the link gave. */
  function Data(events: seq<Read>): seq<Byte> {
    if events == [] then [] else Data(events[..|events| - 1]) + events[|events| - 1].data
  }

  /** The task after some rounds, if the link kept to what it was asked for and nothing was given up. */
  function Run(structSize: nat, events: seq<Read>): (t: Option<Task>)
    ensures t.Some? ==> Orderly(t.value)
  {
    if events == [] then
      FreshIsSteady(structSize);
      Some(Start(structSize))
    else
      var e := events[|events| - 1];
      match Run(structSize, events[..|events| - 1])
      case None => None
      case Some(t) =>
        if Fits(t, e) && Smooth(structSize, t, e) then Some(AfterRound(structSize, t, e)) else None
  }

  /** Parsers that end in a stream. */
  function Ended(structSize: nat, stream: seq<Byte>): nat {
    FreshIsSteady(structSize);
    Endings(structSize, Fresh(structSize), stream)
  }

  /** Parsers that end in the next bytes of a stream. */
  function Brought(structSize: nat, front: seq<Byte>, data: seq<Byte>): (n: nat)
    ensures n == Ended(structSize, front + data) - Ended(structSize, front)
  {
    FreshIsSteady(structSize);
    EndingsGrow(structSize, Fresh(structSize), front, data);
    Ended(structSize, front + data) - Ended(structSize, front)
  }

  /** For each round, the parsers that end with the bytes it brought. */
  function Arrivals(structSize: nat, events: seq<Read>): (arrivals: seq<nat>)
    ensures |arrivals| == |events|
  {
    if events == [] then []
    else
      var n := |events| - 1;
      Arrivals(structSize, events[..n]) + [Brought(structSize, Data(events[..n]), events[n].data)]
  }

  lemma ArrivalsStep(structSize: nat, events: seq<Read>, e: Read)
    ensures Data(events + [e]) == Data(events) + e.data
    ensures Arrivals(structSize, events + [e])
         == Arrivals(structSize, events) + [Brought(structSize, Data(events), e.data)]
  {
    hide Brought;
    var all := events + [e];
    assert all[..|all| - 1] == events && all[|all| - 1] == e;
  }

  /** A queue that serves one each round. */
  function Queue(arrivals: seq<nat>): nat {
    if arrivals == [] then 0 else Serve(Queue(arrivals[..|arrivals| - 1]) + arrivals[|arrivals| - 1])
  }

  function Sum(arrivals: seq<nat>): nat {
    if arrivals == [] then 0 else Sum(arrivals[..|arrivals| - 1]) + arrivals[|arrivals| - 1]
  }

  /** The queue is empty exactly if no last rounds brought more than they could serve. */
  lemma {:induction false} QueueIsEmptyExactly(arrivals: seq<nat>)
    ensures Queue(arrivals) == 0 <==> forall i :: 0 <= i <= |arrivals| ==> Sum(arrivals[i..]) <= |arrivals| - i
  {
    QueueIsBacklog(arrivals, 0);
  }

  /** At most `k` wait exactly if no last rounds brought more than they could serve and `k`. */
  lemma {:induction false} QueueIsBacklog(arrivals: seq<nat>, k: nat)
    ensures Queue(arrivals) <= k <==> forall i :: 0 <= i <= |arrivals| ==> Sum(arrivals[i..]) <= |arrivals| - i + k
  {
    var n := |arrivals|;
    if n == 0 {
      assert arrivals[0..] == [];
    } else {
      var front, last := arrivals[..n - 1], arrivals[n - 1];
      forall i | 0 <= i < n ensures Sum(arrivals[i..]) == Sum(front[i..]) + last {
        assert arrivals[i..][..n - i - 1] == front[i..] && arrivals[i..][n - i - 1] == last;
      }
      assert arrivals[n..] == [];
      if last <= k + 1 {
        QueueIsBacklog(front, k + 1 - last);
      } else {
        assert front[n - 1..] == [];
        assert Sum(arrivals[n - 1..]) == last;
      }
    }
  }

  /** Task and link together amount to the stream received; what waits is the queue of what arrived. */
  lemma {:induction false} RunKeeps(structSize: nat, events: seq<Read>)
    requires Run(structSize, events).Some?
    ensures var t := Run(structSize, events).value;
      && Standing(t) && Steady(Fresh(structSize))
      && Continues(structSize, Fresh(structSize), Data(events), t.receiver, t.buffer)
      && Waiting(structSize, t) == Queue(Arrivals(structSize, events))
      && (AtEmptyBlock(t) ==> Endings(structSize, t.receiver, t.buffer) <= 1)
  {
    hide Smooth, AfterRound, Continues, Endings, Reset, Valid, Steady, Waiting, Fits, Brought;
    FreshIsSteady(structSize);
    if events == [] {
      StartWaitsForNothing(structSize);
    } else {
      var n := |events| - 1;
      var e, t := events[n], Run(structSize, events[..n]).value;
      var s, front := AfterRound(structSize, t, e), Data(events[..n]);
      RunKeeps(structSize, events[..n]);
      RoundContinues(structSize, t, e);
      RoundServes(structSize, t, e);
      ContinuesWith(structSize, Fresh(structSize), front, t.receiver, t.buffer, e.data);
      ContinuesOn(structSize, Fresh(structSize), front + e.data, t.receiver, t.buffer + e.data, s.receiver, s.buffer);
      ContinuesCounts(structSize, front, t, e.data);
      var arrivals := Arrivals(structSize, events);
      assert arrivals[..n] == Arrivals(structSize, events[..n]);
    }
  }

  lemma StartWaitsForNothing(structSize: nat)
    ensures var t := Start(structSize);
      Orderly(t) && Standing(t) && !AtEmptyBlock(t) && Waiting(structSize, t) == 0
      && Continues(structSize, Fresh(structSize), [], t.receiver, t.buffer)
  {
    hide Drain;
    ContinuesSelf(structSize, Fresh(structSize), []);
    StuckStays(structSize, Fresh(structSize), []);
  }

  lemma ContinuesWith(structSize: nat, r: Receiver, a: seq<Byte>, q: Receiver, b: seq<Byte>, more: seq<Byte>)
    requires Steady(r) && Steady(q) && Continues(structSize, r, a, q, b)
    ensures Continues(structSize, r, a + more, q, b + more)
  {
    hide Steady, Drain;
    forall rest: seq<Byte> ensures Drain(structSize, r, a + more + rest) == Drain(structSize, q, b + more + rest) {
      assert a + more + rest == a + (more + rest) && b + more + rest == b + (more + rest);
    }
  }

  /** What ends in the next bytes is the same for the stream and for the task. */
  lemma ContinuesCounts(structSize: nat, front: seq<Byte>, t: Task, data: seq<Byte>)
    requires Orderly(t) && Steady(Fresh(structSize))
    requires Continues(structSize, Fresh(structSize), front, t.receiver, t.buffer)
    ensures Ended(structSize, front + data) - Ended(structSize, front) ==
      Endings(structSize, t.receiver, t.buffer + data) - Endings(structSize, t.receiver, t.buffer)
  {
    hide Steady, Drain, Reset;
    ContinuesNow(structSize, Fresh(structSize), front, t.receiver, t.buffer);
    ContinuesWith(structSize, Fresh(structSize), front, t.receiver, t.buffer, data);
    ContinuesNow(structSize, Fresh(structSize), front + data, t.receiver, t.buffer + data);
  }

  // ---- What is handed over ----

  /** The task waits for an empty block which will end the parser. */
  predicate EndsInEmptyBlock(t: Task)
    requires Orderly(t)
  {
    AtEmptyBlock(t) && FinishBulk(t.receiver.parser, []).status != Status.Good
  }

  lemma EmptyBlockEnds(structSize: nat, t: Task)
    requires Orderly(t) && Standing(t) && AtEmptyBlock(t)
    ensures Endings(structSize, t.receiver, t.buffer) == if EndsInEmptyBlock(t) then 1 else 0
  {
    hide Drain, FinishBulk, Reset, Valid;
    BulkEndsOnce(structSize, t.receiver, []);
  }

  /**
   Whatever the link gives in whatever portions, as long as nothing is given up: the task
   has handed over a first part of what the stream amounts to, and all of it exactly if it
   does not wait for an empty block and no last rounds have brought more ends than rounds.
   */
  lemma HandedOverExactly(structSize: nat, events: seq<Read>)
    requires Run(structSize, events).Some?
    ensures var t := Run(structSize, events).value; var arrivals := Arrivals(structSize, events);
      Steady(Fresh(structSize)) && var all := Drain(structSize, Fresh(structSize), Data(events)).0.outcomes;
      && t.receiver.outcomes <= all
      && (t.receiver.outcomes == all <==>
            !EndsInEmptyBlock(t) && forall i :: 0 <= i <= |arrivals| ==> Sum(arrivals[i..]) <= |arrivals| - i)
  {
    hide Drain, Continues, Run, Arrivals, FinishBulk, Valid, Reset, Queue, Sum;
    var t := Run(structSize, events).value;
    RunKeeps(structSize, events);
    ContinuesNow(structSize, Fresh(structSize), Data(events), t.receiver, t.buffer);
    DrainGrows(structSize, t.receiver, t.buffer);
    QueueIsEmptyExactly(Arrivals(structSize, events));
    if AtEmptyBlock(t) {
      EmptyBlockEnds(structSize, t);
    }
    SamePrefix(t.receiver.outcomes, Drain(structSize, t.receiver, t.buffer).0.outcomes);
  }

  lemma SamePrefix<T>(a: seq<T>, b: seq<T>)
    requires a <= b
    ensures a == b <==> |a| == |b|
  {
  }

  /** A round hands over at most one. */
  lemma RoundHandsOverOne(structSize: nat, events: seq<Read>, e: Read)
    requires Run(structSize, events + [e]).Some?
    ensures Run(structSize, events).Some?
    ensures |Run(structSize, events + [e]).value.receiver.outcomes|
         <= |Run(structSize, events).value.receiver.outcomes| + 1
  {
    hide Continues, Drain, Endings, Queue, Arrivals, Reset, Valid, AfterRound, Smooth;
    assert (events + [e])[..|events|] == events;
    var t := Run(structSize, events).value;
    RunKeeps(structSize, events);
    RoundServes(structSize, t, e);
    if AtEmptyBlock(t) {
      assert t.buffer + e.data == t.buffer;
    }
  }

  lemma {:induction false} RoundsHandOverOneEach(structSize: nat, events: seq<Read>, more: seq<Read>)
    requires Run(structSize, events + more).Some?
    ensures Run(structSize, events).Some?
    ensures |Run(structSize, events + more).value.receiver.outcomes|
         <= |Run(structSize, events).value.receiver.outcomes| + |more|
  {
    hide Run;
    if more == [] {
      assert events + more == events;
    } else {
      var n := |more| - 1;
      assert events + more == events + more[..n] + [more[n]];
      RoundHandsOverOne(structSize, events + more[..n], more[n]);
      RoundsHandOverOneEach(structSize, events, more[..n]);
    }
  }

  /** A queue works off one each round of what waited. */
  lemma {:induction false} QueueWorksOff(a: seq<nat>, b: seq<nat>)
    ensures Queue(a + b) <= (if |b| <= Queue(a) then Queue(a) - |b| else 0) + Sum(b)
  {
    if b == [] {
      assert a + b == a;
    } else {
      var n := |b| - 1;
      assert (a + b)[..|a| + n] == a + b[..n];
      QueueWorksOff(a, b[..n]);
    }
  }

  lemma {:induction false} ArrivalsSplit(structSize: nat, events: seq<Read>, more: seq<Read>)
    ensures Arrivals(structSize, events) <= Arrivals(structSize, events + more)
    ensures Data(events) <= Data(events + more)
    ensures Sum(Arrivals(structSize, events + more)[|events|..])
         == Ended(structSize, Data(events + more)) - Ended(structSize, Data(events))
  {
    hide Ended, Arrivals, Data;
    if more == [] {
      assert events + more == events;
    } else {
      var n := |more| - 1;
      var front := events + more[..n];
      assert events + more == front + [more[n]];
      ArrivalsSplit(structSize, events, more[..n]);
      ArrivalsStep(structSize, front, more[n]);
      var a, all := Arrivals(structSize, front), Arrivals(structSize, events + more);
      assert all[|events|..] == a[|events|..] + [all[|front|]];
      SumStep(a[|events|..], all[|front|]);
    }
  }

  lemma SumStep(a: seq<nat>, last: nat)
    ensures Sum(a + [last]) == Sum(a) + last
  {
    assert (a + [last])[..|a|] == a;
  }

  /**
   All that had come by some round is handed over, exactly, after as many further rounds as
   there were parsers waiting for one, whatever these rounds bring.
   */
  lemma FurtherRoundsExactly(structSize: nat, events: seq<Read>, more: seq<Read>)
    requires Run(structSize, events + more).Some? && !AtEmptyBlock(Run(structSize, events + more).value)
    ensures Run(structSize, events).Some?
    ensures var t, s := Run(structSize, events).value, Run(structSize, events + more).value;
      Ended(structSize, Data(events)) <= |s.receiver.outcomes| <==> Waiting(structSize, t) <= |more|
  {
    hide Run, Arrivals, Continues, Drain, Queue, Sum, Reset, Valid;
    RoundsHandOverOneEach(structSize, events, more);
    var t, s := Run(structSize, events).value, Run(structSize, events + more).value;
    var a, all := Arrivals(structSize, events), Arrivals(structSize, events + more);
    HandedOverAndWaiting(structSize, events);
    HandedOverAndWaiting(structSize, events + more);
    ArrivalsSplit(structSize, events, more);
    assert all == a + all[|a|..];
    QueueWorksOff(a, all[|a|..]);
  }

  lemma HandedOverAndWaiting(structSize: nat, events: seq<Read>)
    requires Run(structSize, events).Some?
    ensures var t := Run(structSize, events).value;
      && Waiting(structSize, t) == Queue(Arrivals(structSize, events))
      && Ended(structSize, Data(events)) == |t.receiver.outcomes| + Endings(structSize, t.receiver, t.buffer)
  {
    hide Run, Arrivals, Continues, Drain, Queue, Reset, Valid;
    var t := Run(structSize, events).value;
    RunKeeps(structSize, events);
    ContinuesNow(structSize, Fresh(structSize), Data(events), t.receiver, t.buffer);
  }

  // ---- Bundles sent back to back ----

  /** The bundles of which a stream of so many bytes holds the end. */
  function WholeBundles(bundles: seq<Bundle6.Bundle>, size: nat): (n: nat)
    ensures n <= |bundles|
  {
    if bundles == [] || |Bundle6Serializer.BundleBytes(bundles[0])| > size then 0
    else 1 + WholeBundles(bundles[1..], size - |Bundle6Serializer.BundleBytes(bundles[0])|)
  }

  /** The front of a bundle ends no parser. */
  lemma FrontEndsNothing(structSize: nat, r: Receiver, b: Bundle6.Bundle, front: seq<Byte>)
    requires r.parser == Reset(structSize) && !r.selected && Steady(r) && Sendable(structSize, b)
    requires front < Bundle6Serializer.BundleBytes(b)
    ensures Endings(structSize, r, front) == 0
  {
    hide Feed, Valid, Reset, Bundle6Serializer.BundleBytes, Received, Bundle6Serializer.Serializable;
    var bytes := Bundle6Serializer.BundleBytes(b);
    FirstByteIsVersion(b);
    if front == [] {
      StuckStays(structSize, r, front);
    } else {
      assert front[0] == bytes[0] && bytes == front + bytes[|front|..];
      RoundTrip(b, structSize, []);
      assert bytes + [] == bytes;
      FeedIsGood(r.parser, front);
      FeedSplits(r.parser, front, bytes[|front|..]);
      var (p, left) := Feed(r.parser, front);
      if p.status != Status.Good {
        FeedOfEnded(p, left + bytes[|front|..]);
        assert false;
      }
    }
  }

  /** From a stream of bundles the whole ones come out. */
  lemma {:induction false} EndingsAreWholeBundles(structSize: nat, r: Receiver, bundles: seq<Bundle6.Bundle>,
                                                  stream: seq<Byte>)
    requires r.parser == Reset(structSize) && !r.selected && Steady(r)
    requires forall b :: b in bundles ==> Sendable(structSize, b)
    requires stream <= Stream(bundles)
    ensures Endings(structSize, r, stream) == WholeBundles(bundles, |stream|)
    ensures Drain(structSize, r, stream).0.outcomes
         == r.outcomes + HandedOver(bundles[..WholeBundles(bundles, |stream|)])
    decreases |bundles|
  {
    hide Drain, Valid, Reset, Bundle6Serializer.BundleBytes, Received, Sendable;
    DrainGrows(structSize, r, stream);
    if bundles == [] {
      StuckStays(structSize, r, stream);
    } else {
      var b, bytes := bundles[0], Bundle6Serializer.BundleBytes(bundles[0]);
      assert b in bundles;
      if |bytes| > |stream| {
        assert stream < bytes;
        FrontEndsNothing(structSize, r, b, stream);
      } else {
        var rest, next := stream[|bytes|..], r.(outcomes := r.outcomes + [Some(Received(b))]);
        assert stream == bytes + rest && rest <= Stream(bundles[1..]);
        DrainOneBundle(structSize, r, b, rest);
        EndingsAreWholeBundles(structSize, next, bundles[1..], rest);
        var n := WholeBundles(bundles[1..], |rest|);
        DrainGrows(structSize, next, rest);
        assert bundles[..n + 1][1..] == bundles[1..][..n];
      }
    }
  }

  /** For each round, the bundles of which it brought the end. */
  ghost predicate BringsEnds(events: seq<Read>, bundles: seq<Bundle6.Bundle>, arrivals: seq<nat>) {
    |arrivals| == |events| && forall k :: 0 <= k < |events| ==>
      arrivals[k] == WholeBundles(bundles, |Data(events[..k + 1])|) - WholeBundles(bundles, |Data(events[..k])|)
  }

  lemma {:induction false} ArrivalsAreWholeBundles(structSize: nat, events: seq<Read>, bundles: seq<Bundle6.Bundle>)
    requires forall b :: b in bundles ==> Sendable(structSize, b)
    requires Data(events) <= Stream(bundles)
    ensures BringsEnds(events, bundles, Arrivals(structSize, events))
  {
    hide *;
    if events == [] {
      NothingBringsNothing(structSize, bundles);
    } else {
      var n := |events| - 1;
      var front, e := events[..n], events[n];
      assert events == front + [e];
      ArrivalsStep(structSize, front, e);
      ArrivalsAreWholeBundles(structSize, front, bundles);
      EndedIsWhole(structSize, bundles, Data(front));
      EndedIsWhole(structSize, bundles, Data(events));
      BringsEndsStep(front, e, bundles, Arrivals(structSize, front), Arrivals(structSize, events));
    }
  }

  lemma NothingBringsNothing(structSize: nat, bundles: seq<Bundle6.Bundle>)
    ensures BringsEnds([], bundles, Arrivals(structSize, []))
  {
  }

  lemma EndedIsWhole(structSize: nat, bundles: seq<Bundle6.Bundle>, stream: seq<Byte>)
    requires forall b :: b in bundles ==> Sendable(structSize, b)
    requires stream <= Stream(bundles)
    ensures Ended(structSize, stream) == WholeBundles(bundles, |stream|)
  {
    hide Endings, Sendable, Stream, WholeBundles;
    FreshIsSteady(structSize);
    EndingsAreWholeBundles(structSize, Fresh(structSize), bundles, stream);
  }

  lemma BringsEndsStep(front: seq<Read>, e: Read, bundles: seq<Bundle6.Bundle>, a: seq<nat>, all: seq<nat>)
    requires BringsEnds(front, bundles, a) && |all| == |front| + 1 && all[..|front|] == a
    requires all[|front|] == WholeBundles(bundles, |Data(front + [e])|) - WholeBundles(bundles, |Data(front)|)
    ensures BringsEnds(front + [e], bundles, all)
  {
    hide WholeBundles, Data;
    var events, n := front + [e], |front|;
    assert events[..n + 1] == events && events[..n] == front;
    forall k | 0 <= k < n
      ensures all[k] == WholeBundles(bundles, |Data(events[..k + 1])|) - WholeBundles(bundles, |Data(events[..k])|)
    {
      assert front[..k + 1] == events[..k + 1] && front[..k] == events[..k];
      assert all[k] == a[k];
    }
  }

  lemma BringsEndsOnce(events: seq<Read>, bundles: seq<Bundle6.Bundle>, a: seq<nat>, b: seq<nat>)
    requires BringsEnds(events, bundles, a) && BringsEnds(events, bundles, b)
    ensures a == b
  {
    hide WholeBundles, Data;
    forall k | 0 <= k < |a| ensures a[k] == b[k] {
      var n := WholeBundles(bundles, |Data(events[..k + 1])|) - WholeBundles(bundles, |Data(events[..k])|);
      assert a[k] == n && b[k] == n;
    }
  }

  /**
   Of bundles sent back to back, in whatever portions, the task has handed over first
   ones, and all whose end has come exactly if in no last rounds more ends came than rounds
   passed, and no empty last block is outstanding.
   */
  lemma StreamArrives(structSize: nat, events: seq<Read>, bundles: seq<Bundle6.Bundle>, arrivals: seq<nat>)
    requires forall b :: b in bundles ==> Sendable(structSize, b)
    requires Data(events) <= Stream(bundles) && Run(structSize, events).Some?
    requires BringsEnds(events, bundles, arrivals)
    ensures var t := Run(structSize, events).value;
      var whole := HandedOver(bundles[..WholeBundles(bundles, |Data(events)|)]);
      && t.receiver.outcomes <= whole
      && (t.receiver.outcomes == whole <==>
            !EndsInEmptyBlock(t) && forall i :: 0 <= i <= |arrivals| ==> Sum(arrivals[i..]) <= |arrivals| - i)
  {
    hide Run, Arrivals, Drain, Stream, WholeBundles, Sendable, EndsInEmptyBlock, Sum, Data, Reset;
    FreshIsSteady(structSize);
    ArrivalsAreWholeBundles(structSize, events, bundles);
    BringsEndsOnce(events, bundles, arrivals, Arrivals(structSize, events));
    EndingsAreWholeBundles(structSize, Fresh(structSize), bundles, Data(events));
    HandedOverExactly(structSize, events);
    var whole := HandedOver(bundles[..WholeBundles(bundles, |Data(events)|)]);
    assert [] + whole == whole;
  }

  const LINK_FAULT := Read([], false, false)

  /** A fault of the link between bundles: what waits in the buffer never comes out. */
  lemma FaultDropsWaiting(structSize: nat, t: Task)
    requires Orderly(t) && !t.receiver.parser.bulkRead
    ensures Fits(t, LINK_FAULT)
    ensures var s := AfterRound(structSize, t, LINK_FAULT);
      s.receiver == Fresh(structSize).(outcomes := t.receiver.outcomes) && s.buffer == []
  {
    hide BufferOut, BulkOut, Valid, Reset;
  }

  // ---- Rounds that give something up ----

  /**
   A round gives the buffer up exactly if all its 64 bytes are taken, no parser is at work,
   and the first byte begins no bundle; everything is lost then.
   */
  lemma GivesUpExactly(structSize: nat, t: Task, e: Read)
    requires Orderly(t) && Standing(t) && Fits(t, e)
    ensures GivesUp(structSize, t, e) <==>
      && !t.receiver.parser.bulkRead && e.ok && (e.late || !t.receiver.selected)
      && |t.buffer + e.data| == 64 && (t.buffer + e.data)[0] != 6
    ensures GivesUp(structSize, t, e) ==>
      AfterRound(structSize, t, e) == Task(ResetReceiver(structSize, t.receiver), [])
  {
    hide ReadBuffer, BulkOut, BufferOut, Valid, Reset;
    var bytes := t.buffer + e.data;
    if !t.receiver.parser.bulkRead && e.ok {
      var r := if e.late then ResetReceiver(structSize, t.receiver) else t.receiver;
      ResetIsSteady(structSize, t.receiver);
      BufferOutStops(structSize, r, bytes);
      if bytes != [] && !Stuck(r, bytes) {
        ReadBufferSplits(r.parser, bytes, []);
      }
    }
  }

  /** A chunk that comes late is parsed from its start, together with what waited, by a parser that knows nothing. */
  lemma LateChunkStartsAnew(structSize: nat, t: Task, data: seq<Byte>)
    requires Orderly(t) && !t.receiver.parser.bulkRead && Fits(t, Read(data, true, true))
    ensures var u := Task(ResetReceiver(structSize, t.receiver), t.buffer);
      && Orderly(u) && Fits(u, Read(data, true, false))
      && AfterRound(structSize, t, Read(data, true, true)) == AfterRound(structSize, u, Read(data, true, false))
  {
    hide BufferOut, BulkOut, Valid, Reset;
    ResetIsSteady(structSize, t.receiver);
  }

  /** Block data that does not come, or comes late, ends the bundle: nothing of it or of the buffer is left. */
  lemma BulkFaultDropsAll(structSize: nat, t: Task, e: Read)
    requires Orderly(t) && Fits(t, e) && t.receiver.parser.bulkRead && t.receiver.parser.nextBytes > |t.buffer|
    requires !e.ok || e.late
    ensures AfterRound(structSize, t, e) == Task(Fresh(structSize).(outcomes := t.receiver.outcomes), [])
  {
    hide BufferOut, BulkOut, Valid, Reset;
  }

  /** The first round with a bundle and more behind it: the bundle is handed over, the rest stays in the buffer. */
  lemma FirstRoundOfTwo(structSize: nat, a: Bundle6.Bundle, second: seq<Byte>)
    requires Sendable(structSize, a) && second != []
    requires |Bundle6Serializer.BundleBytes(a) + second| <= BUFFER_SIZE
    ensures Orderly(Start(structSize)) && !Reset(structSize).bulkRead
    ensures var t, e := Start(structSize), Read(Bundle6Serializer.BundleBytes(a) + second, true, false);
      && Fits(t, e) && Smooth(structSize, t, e)
      && AfterRound(structSize, t, e) == Task(Fresh(structSize).(outcomes := [Some(Received(a))]), second)
  {
    hide Feed, Valid, Reset, Bundle6Serializer.BundleBytes, Received, Bundle6Serializer.Serializable, ReadBuffer, Drain;
    FirstByteIsVersion(a);
    FreshIsSteady(structSize);
    ResetIsSteady(structSize, Fresh(structSize));
    StopsBehindFirst(structSize, a, second);
    var bytes := Bundle6Serializer.BundleBytes(a) + second;
    assert [] + bytes == bytes;
    BufferOutStops(structSize, Fresh(structSize), bytes);
  }

  lemma OneRound(structSize: nat, e: Read)
    requires Orderly(Start(structSize)) && Fits(Start(structSize), e) && Smooth(structSize, Start(structSize), e)
    ensures Run(structSize, [e]) == Some(AfterRound(structSize, Start(structSize), e))
  {
    hide Fits, Smooth, AfterRound, Orderly;
    assert [e][..0] == [];
    assert Run(structSize, []) == Some(Start(structSize));
  }

  /** Two small bundles that come together: one is handed over, and a fault then loses the other. */
  lemma TogetherOneIsLost(structSize: nat, a: Bundle6.Bundle, b: Bundle6.Bundle)
    requires Sendable(structSize, a) && Sendable(structSize, b)
    requires |Bundle6Serializer.BundleBytes(a) + Bundle6Serializer.BundleBytes(b)| <= BUFFER_SIZE
    ensures var bytes := Bundle6Serializer.BundleBytes(a) + Bundle6Serializer.BundleBytes(b);
      var run := Run(structSize, [Read(bytes, true, false)]);
      && run.Some? && run.value.receiver.outcomes == [Some(Received(a))]
      && run.value.buffer == Bundle6Serializer.BundleBytes(b) && Fits(run.value, LINK_FAULT)
      && AfterRound(structSize, run.value, LINK_FAULT) == Task(run.value.receiver, [])
  {
    hide Feed, Valid, Reset, Bundle6Serializer.BundleBytes, Received, Bundle6Serializer.Serializable, ReadBuffer, Drain,
         AfterRound, Fits, Smooth, Steady;
    var first, second := Bundle6Serializer.BundleBytes(a), Bundle6Serializer.BundleBytes(b);
    var e := Read(first + second, true, false);
    FirstByteIsVersion(b);
    FirstRoundOfTwo(structSize, a, second);
    OneRound(structSize, e);
    FaultDropsWaiting(structSize, AfterRound(structSize, Start(structSize), e));
  }

  /** All identifiers are "a:", and the payload is one byte: 31 bytes on the link. */
  function SmallBundle(): Bundle6.Bundle {
    Bundle6SizeLimit.BundleWith([Bundle6.Block(1, 8, [], 1, [7])])
  }

  /** Two of these fit the buffer together. */
  lemma SmallBundleIsSendable(structSize: nat)
    requires structSize + 14 <= BUNDLE_MAX_SIZE
    ensures Sendable(structSize, SmallBundle())
    ensures |Bundle6Serializer.BundleBytes(SmallBundle())| == 31
  {
    hide Bundle6.DescriptorOf, Bundle6.PrimaryLengthOf, Bundle6Serializer.CountedBytes, Bundle6Serializer.ValidEid,
         Bundle6Serializer.Serializable;
    var b := SmallBundle();
    var block := b.blocks[0];
    assert b.blocks == [block] && b.blocks[1..] == [];
    SmallBlock(block);
    Bundle6SizeLimit.BundleWithIsSerializable(b.blocks);
    Bundle6Serializer.PrimaryLengthIsExact(b);
    assert Bundle6Serializer.BlocksBytes([], b.blocks)
        == Bundle6Serializer.BlockBytes([], block) + Bundle6Serializer.BlocksBytes([], []);
    assert block.blockType == Bundle6.PAYLOAD_BLOCK_TYPE;
  }

  lemma SmallBlock(block: Bundle6.Block)
    requires block == Bundle6.Block(1, 8, [], 1, [7])
    ensures Bundle6Serializer.ValidBlock(block) && Bundle6.IsLastBlock(block.flags) && !Bundle6.HasEidRefs(block.flags)
    ensures |Bundle6Serializer.BlockBytes([], block)| == 4
  {
  }

  lemma StopsBehindFirst(structSize: nat, a: Bundle6.Bundle, second: seq<Byte>)
    requires Sendable(structSize, a) && second != []
    requires Steady(Fresh(structSize))
    ensures var (p, left) := ReadBuffer(Reset(structSize), Bundle6Serializer.BundleBytes(a) + second);
      p.status == Done && left == second && p.sent == Some(Received(a))
  {
    hide Feed, Valid, Reset, Bundle6Serializer.BundleBytes, Received, Bundle6Serializer.Serializable, ReadBuffer, Drain;
    var bytes := Bundle6Serializer.BundleBytes(a) + second;
    RoundTrip(a, structSize, second);
    SteadyMeans(Fresh(structSize));
    ReadBufferSplits(Reset(structSize), bytes, []);
    ReadBufferStops(Reset(structSize), bytes);
    var (p, left) := ReadBuffer(Reset(structSize), bytes);
    assert bytes + [] == bytes && left + [] == left;
    FeedIsGood(p, left);
    if p.status != Status.Good {
      FeedOfEnded(p, left);
    } else if Quiet(p, left) {
      FeedOfQuiet(p, left);
    }
  }

  lemma FeedOfQuiet(p: Parser, left: seq<Byte>)
    requires Quiet(p, left) && Valid(p)
    ensures Feed(p, left) == (p, left)
  {
    hide Valid;
  }

  // ---- The code ----

  function Concat(portions: seq<seq<Byte>>): seq<Byte> {
    if portions == [] then [] else Concat(portions[..|portions| - 1]) + portions[|portions| - 1]
  }

  lemma {:induction false} ConcatPrefix(portions: seq<seq<Byte>>, k: nat)
    requires k <= |portions|
    ensures |Concat(portions[..k])| <= |Concat(portions)|
    decreases |portions| - k
  {
    if k == |portions| {
      assert portions[..k] == portions;
    } else {
      assert portions[..k + 1][..k] == portions[..k];
      ConcatPrefix(portions, k + 1);
    }
  }

  lemma SettlesPlainly(structSize: nat, r: Receiver, p: Parser)
    requires (p.status == Status.Good ==> Valid(p)) && !p.bulkRead
    ensures !Settle(structSize, r, p).parser.bulkRead
  {
  }

  /** One call of the parser is all there is to a pass over the buffer. */
  lemma BufferOutStops(structSize: nat, r: Receiver, bytes: seq<Byte>)
    requires Steady(r) && !r.parser.bulkRead
    ensures bytes == [] || Stuck(r, bytes) ==> BufferOut(structSize, r, bytes) == (r, bytes)
    ensures bytes != [] && !Stuck(r, bytes) ==>
      var (p, left) := ReadBuffer(r.parser, bytes);
      && (p.status == Status.Good ==> Valid(p))
      && BufferOut(structSize, r, bytes) == (Settle(structSize, r, p), left)
      && (p.status == Status.Good && !Settle(structSize, r, p).parser.bulkRead ==> left == [])
  {
    hide ReadBuffer, Valid, Reset;
    if bytes != [] && !Stuck(r, bytes) {
      ReadBufferSplits(r.parser, bytes, []);
      ReadBufferStops(r.parser, bytes);
    }
  }

  class RxTask {
    const structSize: nat
    const input: array<Byte>
    var end: nat
    var receiver: Receiver

    constructor (structSize: nat)
      ensures Valid() && fresh(input) && this.structSize == structSize && Value() == Start(structSize)
    {
      this.structSize := structSize;
      input := new Byte[BUFFER_SIZE];
      end := 0;
      receiver := Fresh(structSize);
      FreshIsSteady(structSize);
    }

    ghost predicate Valid()
      reads this, input
    {
      input.Length == BUFFER_SIZE && end <= BUFFER_SIZE && Steady(receiver)
    }

    ghost function Value(): (t: Task)
      requires Valid()
      reads this, input
      ensures Orderly(t)
    {
      hide Steady;
      Task(receiver, input[..end])
    }

    /** Hands bytes to the parser that the first byte selects; gives how many were parsed. */
    method Forward(bytes: seq<Byte>) returns (parsed: nat, status: Status)
      requires Steady(receiver) && !Stuck(receiver, bytes)
      modifies this`receiver
      ensures parsed <= |bytes|
      ensures var (p, rest) := ReadBuffer(old(receiver).parser, bytes);
        && (p.status == Status.Good ==> Bundle6Parser.Valid(p))
        && rest == bytes[parsed..] && status == p.status
        && receiver == Settle(structSize, old(receiver), p)
    {
      hide ReadBuffer, Settle, Bundle6Parser.Valid;
      var p;
      p, parsed := ParserRead(receiver.parser, bytes);
      ReadBufferSplits(receiver.parser, bytes, []);
      receiver := Settle(structSize, receiver, p);
      status := p.status;
    }

    /** Reads what is in the buffer from `start` on, until a parser ends, needs bulk data or more input. */
    method BufferRead(start: nat) returns (stream: nat)
      requires input.Length == BUFFER_SIZE && start <= end <= BUFFER_SIZE
      requires Steady(receiver) && !receiver.parser.bulkRead
      modifies this`receiver
      ensures start <= stream <= end
      ensures (receiver, input[stream..end]) == BufferOut(structSize, old(receiver), input[start..end])
    {
      hide *;
      stream := start;
      ghost var all, before := input[start..end], receiver;
      ghost var out := BufferOut(structSize, before, all);
      BufferOutStops(structSize, before, all);
      while stream < end
        invariant start <= stream <= end && out == BufferOut(structSize, before, all)
        invariant stream < end ==> stream == start && receiver == before
        invariant stream == end ==> receiver == out.0 && out.1 == []
        decreases end - stream
      {
        var bytes := input[stream..end];
        if Stuck(receiver, bytes) {
          // Not one byte is parsed: wait for more.
          assert out == (receiver, bytes);
          break;
        }
        var parsed, status := Forward(bytes);
        stream := stream + parsed;
        assert bytes[parsed..] == input[stream..end];
        assert out == (receiver, input[stream..end]);
        if status != Status.Good || receiver.parser.bulkRead {
          break;
        }
      }
      assert stream == end ==> input[stream..end] == [];
    }

    /** `memcpy` of `data` to position `at` of the input buffer. */
    method CopyIn(at: nat, data: seq<Byte>)
      requires at + |data| <= input.Length
      modifies input
      ensures input[..at + |data|] == old(input[..at]) + data
    {
      for k := 0 to |data|
        invariant forall j :: 0 <= j < at ==> input[j] == old(input[j])
        invariant forall j :: at <= j < at + k ==> input[j] == data[j - at]
      {
        input[at + k] := data[k];
      }
    }

    /** Shifts the unparsed bytes to the front. */
    method Compact(parsed: nat)
      requires parsed <= end <= input.Length
      modifies input, this`end
      ensures end == old(end) - parsed && input[..end] == old(input[parsed..end])
    {
      for k := 0 to end - parsed
        invariant end == old(end)
        invariant forall j :: 0 <= j < k ==> input[j] == old(input[parsed + j])
        invariant forall j :: k <= j < input.Length ==> input[j] == old(input[j])
      {
        input[k] := input[parsed + k];
      }
      end := end - parsed;
    }

    method ResetParsers()
      modifies this`receiver
      ensures receiver == ResetReceiver(structSize, old(receiver))
    {
      receiver := receiver.(parser := Reset(structSize), selected := false);
    }

    /** Collects the rest of the bulk data from the link, behind what the buffer already holds. */
    method FillBulk(front: seq<Byte>, size: nat, portions: seq<seq<Byte>>, late: bool)
      returns (data: seq<Byte>, ok: bool)
      requires |front| + |Concat(portions)| <= size && (late ==> portions != [])
      ensures ok <==> |front| + |Concat(portions)| == size && !late
      ensures ok ==> data == front + Concat(portions)
    {
      var bulk := new Byte[size];
      var pos := |front|;
      forall j | 0 <= j < |front| {
        bulk[j] := front[j];
      }
      assert bulk[..pos] == front;
      for k := 0 to |portions|
        invariant |front| <= pos <= size
        invariant bulk[..pos] == front + Concat(portions[..k])
        invariant k == |portions| ==> !late
      {
        assert portions[..k + 1][..k] == portions[..k];
        ConcatPrefix(portions, k + 1);
        var portion := portions[k];
        ghost var before := bulk[..pos];
        forall j | 0 <= j < |portion| {
          bulk[pos + j] := portion[j];
        }
        assert bulk[..pos + |portion|] == before + portion;
        if late && k == |portions| - 1 {
          return bulk[..pos], false;
        }
        pos := pos + |portion|;
      }
      assert portions[..|portions|] == portions;
      return bulk[..pos], pos == size;
    }

    /** Completes a bulk read from the buffer, and from the link if the buffer is too short. */
    method BulkRead(portions: seq<seq<Byte>>, ok: bool, late: bool) returns (parsed: nat)
      requires Valid() && receiver.parser.bulkRead && (late ==> portions != [])
      requires Fits(Value(), Read(Concat(portions), ok, late))
      requires !ok ==> end + |Concat(portions)| < receiver.parser.nextBytes
      modifies this`receiver
      ensures parsed <= end
      ensures (receiver, input[parsed..end]) == Parsed(structSize, old(Value()), Read(Concat(portions), ok, late))
    {
      hide ReadBuffer, FinishBulk, Settle, BufferOut, Bundle6Parser.Valid, Reset, Concat;
      var size := receiver.parser.nextBytes;
      ghost var before := Value();
      var data: seq<Byte>;
      if size <= end {
        data := input[..size];
        parsed := size;
        assert before.buffer[..size] == data && before.buffer[size..] == input[size..end];
      } else {
        var full;
        data, full := FillBulk(input[..end], size, portions, late);
        parsed := end;
        assert input[end..end] == [];
        if !full {
          ResetParsers();
          return;
        }
      }
      FinishBulkKeepsValid(receiver.parser, data);
      SettlesPlainly(structSize, receiver, FinishBulk(receiver.parser, data));
      receiver := Settle(structSize, receiver, FinishBulk(receiver.parser, data));
      if parsed < end {
        parsed := BufferRead(parsed);
      }
    }

    /** Reads what the link has into the buffer and parses the buffer. */
    method ChunkRead(chunk: seq<Byte>, ok: bool, late: bool) returns (parsed: nat)
      requires Valid() && !receiver.parser.bulkRead && Fits(Value(), Read(chunk, ok, late))
      modifies this`receiver, this`end, input
      ensures parsed <= end == old(end) + |chunk| <= BUFFER_SIZE
      ensures (receiver, input[parsed..end]) == Parsed(structSize, old(Value()), Read(chunk, ok, late))
      ensures parsed == 0 ==> input[parsed..end] == input[..end]
    {
      hide BufferOut, Bundle6Parser.Valid, Reset;
      ResetIsSteady(structSize, receiver);
      if !ok {
        assert input[end..end] == [];
        ResetParsers();
        return end;
      }
      CopyIn(end, chunk);
      end := end + |chunk|;
      if late {
        ResetParsers();
      }
      assert input[..end] == input[0..end];
      parsed := BufferRead(0);
    }

    /** One round of the task: read, parse, and make room in the buffer. */
    method Round(portions: seq<seq<Byte>>, ok: bool, late: bool)
      requires Valid() && Fits(Value(), Read(Concat(portions), ok, late)) && (late ==> portions != [])
      requires receiver.parser.bulkRead && !ok ==> end + |Concat(portions)| < receiver.parser.nextBytes
      modifies this`receiver, this`end, input
      ensures Valid()
      ensures Value() == AfterRound(structSize, old(Value()), Read(Concat(portions), ok, late))
    {
      hide BufferOut, BulkOut, Parsed, Bundle6Parser.Valid, Reset, Concat;
      var parsed;
      if receiver.parser.bulkRead {
        parsed := BulkRead(portions, ok, late);
      } else {
        parsed := ChunkRead(Concat(portions), ok, late);
      }
      ResetIsSteady(structSize, receiver);
      if parsed == end {
        end := 0;
      } else if parsed != 0 {
        Compact(parsed);
      } else if end == BUFFER_SIZE {
        ResetParsers();
        end := 0;
      }
    }
  }
}
