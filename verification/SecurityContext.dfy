/**
 An OSCORE security context that keeps its sender sequence number and replay window
 in one file, which is replaced as a whole (appendix B.1 of RFC 8613). The process
 may die at any moment, also while it stores, and start again from the file.
 */
module SecurityContext {
  import opened Bytes
  import opened ReplayWindow
  import OscoreNonce

  /** Numbers from here on do not fit the partial IV. */
  const MAX_SEQNO: nat := 0xFF_FFFF_FFFF

  datatype Config = Config(size: nat, chunkStart: nat, chunkLimit: nat) {
    predicate Valid() {
      size > 0 && chunkStart > 0 && chunkLimit > 0
    }
  }

  datatype Received = Unknown | Saved(window: Option<Window>)

  datatype Disk = Absent | File(next: nat, received: Received)

  datatype Process = Process(sender: nat, persisted: nat, chunk: nat, windowPersisted: bool, window: Option<Window>)

  /** `issued` and `accepted` record, over all processes, the numbers sent and the requests let through. */
  datatype System = System(disk: Disk, process: Option<Process>, issued: seq<nat>, accepted: seq<nat>)

  const INIT := System(Absent, None, [], [])

  /** Whether and when the process dies while it writes the file, or writing fails and the process lives on. */
  datatype Fault = NoFault | BeforeReplace | AfterReplace | Raised

  datatype Event =
    | Start
    | Crash
    | Shutdown(fault: Fault)
    | NewNumber(fault: Fault)
    | Request(seqno: nat, decrypts: bool, echoMatches: bool, fault: Fault)
    | Response(own: Option<nat>, decrypts: bool)

  /** Writing the file fails, but the process goes on. */
  predicate Raises(e: Event) {
    (e.NewNumber? || e.Request?) && e.fault.Raised?
  }

  // ---- The operations ----

  function LoadedWindow(disk: Disk): Option<Window> {
    match disk
    case Absent => Some(EMPTY)
    case File(_, Unknown) => None
    case File(_, Saved(window)) => window
  }

  function LoadedNumber(disk: Disk): nat {
    if disk.Absent? then 0 else disk.next
  }

  function Load(cfg: Config, disk: Disk): Process {
    Process(LoadedNumber(disk), LoadedNumber(disk), cfg.chunkStart,
            disk.Absent? || disk.received.Saved?, LoadedWindow(disk))
  }

  function Image(p: Process): Disk {
    File(p.persisted, if p.windowPersisted then Saved(p.window) else Unknown)
  }

  /** The system after the process has reached state `p` and stores it. */
  function Store(s: System, p: Process, fault: Fault): System {
    match fault
    case NoFault => s.(disk := Image(p), process := Some(p))
    case BeforeReplace => s.(process := None)
    case AfterReplace => s.(disk := Image(p), process := None)
    case Raised => s.(process := Some(p))
  }

  function MinNat(a: nat, b: nat): nat {
    if a <= b then a else b
  }

  function Incremented(cfg: Config, p: Process): Process {
    p.(sender := p.sender + 1, persisted := p.persisted + p.chunk, chunk := MinNat(p.chunk * 2, cfg.chunkLimit))
  }

  function TakeNumber(cfg: Config, s: System, p: Process, fault: Fault): System {
    if p.sender >= MAX_SEQNO then s
    else if p.sender + 1 > p.persisted then
      var stored := Store(s, Incremented(cfg, p), fault);
      if fault.NoFault? then stored.(issued := s.issued + [p.sender]) else stored
    else s.(process := Some(p.(sender := p.sender + 1)), issued := s.issued + [p.sender])
  }

  /** Striking a number out removes the window from the file, once. */
  function Struck(s: System, p: Process, window: Window, seqno: nat, fault: Fault): System {
    var q := p.(window := Some(window));
    if p.windowPersisted then
      var stored := Store(s, q.(windowPersisted := false), fault);
      if fault.NoFault? then stored.(accepted := s.accepted + [seqno]) else stored
    else s.(process := Some(q), accepted := s.accepted + [seqno])
  }

  function Seen(p: Process, seqno: nat): Process {
    p.(window := Some(FreshlySeen(seqno)))
  }

  function HandleRequest(cfg: Config, s: System, p: Process, e: Event): System
    requires e.Request?
  {
    if !e.decrypts then s
    else if p.window.None? then
      if e.echoMatches then s.(process := Some(Seen(p, e.seqno)), accepted := s.accepted + [e.seqno]) else s
    else
      var struck := StrikeOut(cfg.size, p.window.value, e.seqno);
      if struck.None? then s else Struck(s, p, struck.value, e.seqno, e.fault)
  }

  function HandleResponse(s: System, p: Process, e: Event): System
    requires e.Response?
  {
    if e.decrypts && e.own.Some? && p.window.None? then s.(process := Some(Seen(p, e.own.value))) else s
  }

  function Stop(s: System, p: Process, fault: Fault): System {
    Store(s, p.(windowPersisted := true, persisted := p.sender), fault).(process := None)
  }

  function Step(cfg: Config, s: System, e: Event): System {
    if s.process.None? then
      if e.Start? then s.(process := Some(Load(cfg, s.disk))) else s
    else
      var p := s.process.value;
      match e
      case Start => s
      case Crash => s.(process := None)
      case Shutdown(fault) => Stop(s, p, fault)
      case NewNumber(fault) => TakeNumber(cfg, s, p, fault)
      case Request(_, _, _, _) => HandleRequest(cfg, s, p, e)
      case Response(_, _) => HandleResponse(s, p, e)
  }

  function Run(cfg: Config, events: seq<Event>): System {
    if events == [] then INIT else Step(cfg, Run(cfg, events[..|events| - 1]), events[|events| - 1])
  }

  // ---- What the peer guarantees ----

  predicate AboveAll(accepted: seq<nat>, seqno: nat) {
    forall n :: n in accepted ==> n < seqno
  }

  /** A message that initializes the window was produced after all messages accepted before. */
  predicate Fresh(s: System, e: Event) {
    s.process.Some? && s.process.value.window.None? ==>
      && (e.Request? && e.decrypts && e.echoMatches ==> AboveAll(s.accepted, e.seqno))
      && (e.Response? && e.decrypts && e.own.Some? ==> AboveAll(s.accepted, e.own.value))
  }

  predicate NoneRaises(events: seq<Event>) {
    forall e :: e in events ==> !Raises(e)
  }

  predicate FreshRun(cfg: Config, events: seq<Event>) {
    events == [] ||
    (FreshRun(cfg, events[..|events| - 1]) && Fresh(Run(cfg, events[..|events| - 1]), events[|events| - 1]))
  }

  // ---- The invariant ----

  predicate Rejects(size: nat, w: Option<Window>, accepted: seq<nat>) {
    w.Some? ==> Proper(size, w.value) && forall n :: n in accepted ==> !IsValid(size, w.value, n)
  }

  predicate Ascending(numbers: seq<nat>) {
    forall i, j :: 0 <= i < j < |numbers| ==> numbers[i] < numbers[j]
  }

  predicate Distinct(numbers: seq<nat>) {
    forall i, j :: 0 <= i < j < |numbers| ==> numbers[i] != numbers[j]
  }

  predicate Below(numbers: seq<nat>, bound: nat) {
    forall n :: n in numbers ==> n < bound && n < MAX_SEQNO
  }

  /** All numbers handed out lie below the one that a restart would begin with. */
  predicate NumbersInv(s: System) {
    && Ascending(s.issued)
    && match s.process
      case None => Below(s.issued, LoadedNumber(s.disk))
      case Some(p) =>
        Below(s.issued, p.sender) && p.sender <= p.persisted == LoadedNumber(s.disk) && p.chunk > 0
  }

  lemma NextNumber(numbers: seq<nat>, n: nat)
    requires Ascending(numbers) && Below(numbers, n) && n < MAX_SEQNO
    ensures Ascending(numbers + [n]) && Below(numbers + [n], n + 1)
  {
    forall i | 0 <= i < |numbers| ensures numbers[i] < n {
      assert numbers[i] in numbers;
    }
  }

  lemma BelowMore(numbers: seq<nat>, a: nat, b: nat)
    requires Below(numbers, a) && a <= b
    ensures Below(numbers, b)
  {
  }

  lemma TakeNumberKeepsNumbers(cfg: Config, s: System, p: Process, fault: Fault)
    requires cfg.Valid() && NumbersInv(s) && s.process == Some(p) && !fault.Raised?
    ensures NumbersInv(TakeNumber(cfg, s, p, fault))
  {
    hide Ascending, Below;
    if p.sender < MAX_SEQNO {
      NextNumber(s.issued, p.sender);
      BelowMore(s.issued, p.sender, p.persisted);
      BelowMore(s.issued, p.sender, p.persisted + p.chunk);
    }
  }

  lemma StepKeepsNumbers(cfg: Config, s: System, e: Event)
    requires cfg.Valid() && NumbersInv(s) && !Raises(e)
    ensures NumbersInv(Step(cfg, s, e))
  {
    hide Ascending, Below, TakeNumber, StrikeOut;
    if s.process.Some? {
      var p := s.process.value;
      BelowMore(s.issued, p.sender, p.persisted);
      if e.NewNumber? {
        TakeNumberKeepsNumbers(cfg, s, p, e.fault);
      }
    }
  }

  lemma {:induction false} RunKeepsNumbers(cfg: Config, events: seq<Event>)
    requires cfg.Valid() && NoneRaises(events)
    ensures NumbersInv(Run(cfg, events))
  {
    if events != [] {
      RunKeepsNumbers(cfg, events[..|events| - 1]);
      StepKeepsNumbers(cfg, Run(cfg, events[..|events| - 1]), events[|events| - 1]);
    }
  }

  /** Sequence numbers are handed out in ascending order; none is used twice, none is too large. */
  lemma NumbersAscend(cfg: Config, events: seq<Event>)
    requires cfg.Valid() && NoneRaises(events)
    ensures Ascending(Run(cfg, events).issued)
    ensures forall n :: n in Run(cfg, events).issued ==> n < MAX_SEQNO
  {
    RunKeepsNumbers(cfg, events);
  }

  /** All nonces ever built from fresh numbers differ. */
  lemma NoncesNeverRepeat(cfg: Config, events: seq<Event>, commonIv: seq<Byte>, id: seq<Byte>, ivBytes: nat,
                          i: nat, j: nat)
    requires cfg.Valid() && NoneRaises(events)
    requires OscoreNonce.IdFits(id, ivBytes) && |commonIv| >= ivBytes
    requires i < j < |Run(cfg, events).issued|
    ensures var issued := Run(cfg, events).issued;
      OscoreNonce.NonceOf(commonIv, id, issued[i], ivBytes) != OscoreNonce.NonceOf(commonIv, id, issued[j], ivBytes)
  {
    NumbersAscend(cfg, events);
    var issued := Run(cfg, events).issued;
    assert issued[i] in issued && issued[j] in issued;
    assert Pow256(5) == 256 * 256 * Pow256(3);
    OscoreNonce.FreshNumbersGiveFreshNonces(commonIv, id, issued[i], id, issued[j], ivBytes);
  }

  // ---- Replay ----

  /** The window on disk, once loaded, is uninitialized or rejects every accepted number. */
  predicate ReplayInv(size: nat, s: System) {
    && Distinct(s.accepted)
    && Rejects(size, LoadedWindow(s.disk), s.accepted)
    && (s.process.Some? ==>
        var p := s.process.value;
        Rejects(size, p.window, s.accepted)
        && (!p.windowPersisted || p.window.None? ==> LoadedWindow(s.disk).None?))
  }

  lemma FreshlySeenRejects(size: nat, seen: nat, accepted: seq<nat>)
    requires size > 0 && AboveAll(accepted, seen)
    ensures Rejects(size, Some(FreshlySeen(seen)), accepted + [seen])
    ensures Rejects(size, Some(FreshlySeen(seen)), accepted)
  {
    StartsProper(size, seen);
  }

  lemma StrikeRejects(size: nat, w: Window, seqno: nat, accepted: seq<nat>)
    requires size > 0 && Rejects(size, Some(w), accepted) && StrikeOut(size, w, seqno).Some?
    ensures Rejects(size, Some(StrikeOut(size, w, seqno).value), accepted + [seqno])
    ensures Rejects(size, Some(StrikeOut(size, w, seqno).value), accepted)
    ensures seqno !in accepted
  {
    var r := StrikeOut(size, w, seqno).value;
    StrikeOutMeans(size, w, seqno, seqno);
    forall n | n in accepted ensures !IsValid(size, r, n) {
      StrikeOutMeans(size, w, seqno, n);
    }
  }

  lemma OneMore(numbers: seq<nat>, n: nat)
    requires Distinct(numbers) && n !in numbers
    ensures Distinct(numbers + [n])
  {
  }

  lemma StruckKeepsReplay(size: nat, s: System, p: Process, w: Window, seqno: nat, fault: Fault)
    requires ReplayInv(size, s) && s.process == Some(p) && p.window.Some?
    requires Rejects(size, Some(w), s.accepted + [seqno]) && Rejects(size, Some(w), s.accepted)
    requires Distinct(s.accepted + [seqno]) && !fault.Raised?
    ensures ReplayInv(size, Struck(s, p, w, seqno, fault))
  {
    hide Distinct, Proper, IsValid;
  }

  lemma RequestKeepsReplay(cfg: Config, s: System, p: Process, e: Event)
    requires cfg.Valid() && ReplayInv(cfg.size, s) && s.process == Some(p) && e.Request? && Fresh(s, e)
    requires !Raises(e)
    ensures ReplayInv(cfg.size, HandleRequest(cfg, s, p, e))
  {
    hide Proper, IsValid, StrikeOut, FreshlySeen, Struck, Distinct;
    if e.decrypts {
      if p.window.None? {
        if e.echoMatches {
          FreshlySeenRejects(cfg.size, e.seqno, s.accepted);
          OneMore(s.accepted, e.seqno);
        }
      } else {
        var struck := StrikeOut(cfg.size, p.window.value, e.seqno);
        if struck.Some? {
          StrikeRejects(cfg.size, p.window.value, e.seqno, s.accepted);
          OneMore(s.accepted, e.seqno);
          StruckKeepsReplay(cfg.size, s, p, struck.value, e.seqno, e.fault);
        }
      }
    }
  }

  lemma ResponseKeepsReplay(cfg: Config, s: System, p: Process, e: Event)
    requires cfg.Valid() && ReplayInv(cfg.size, s) && s.process == Some(p) && e.Response? && Fresh(s, e)
    ensures ReplayInv(cfg.size, HandleResponse(s, p, e))
  {
    hide Proper, IsValid, FreshlySeen, Distinct;
    if e.decrypts && e.own.Some? && p.window.None? {
      FreshlySeenRejects(cfg.size, e.own.value, s.accepted);
    }
  }

  /** Every step keeps the invariant, wherever a crash falls. */
  lemma StepKeepsReplay(cfg: Config, s: System, e: Event)
    requires cfg.Valid() && ReplayInv(cfg.size, s) && Fresh(s, e) && !Raises(e)
    ensures ReplayInv(cfg.size, Step(cfg, s, e))
  {
    hide Proper, IsValid, Distinct, HandleRequest, HandleResponse, Fresh, Incremented;
    if s.process.Some? {
      var p := s.process.value;
      if e.Request? {
        RequestKeepsReplay(cfg, s, p, e);
      } else if e.Response? {
        ResponseKeepsReplay(cfg, s, p, e);
      } else if e.NewNumber? {
        KeepsWindow(cfg, p);
      }
    }
  }

  lemma KeepsWindow(cfg: Config, p: Process)
    ensures Incremented(cfg, p).window == p.window && Incremented(cfg, p).windowPersisted == p.windowPersisted
  {
  }

  lemma {:induction false} RunKeepsReplay(cfg: Config, events: seq<Event>)
    requires cfg.Valid() && FreshRun(cfg, events) && NoneRaises(events)
    ensures ReplayInv(cfg.size, Run(cfg, events))
  {
    hide Step, Fresh;
    if events == [] {
      StartsProper(cfg.size, 0);
    } else {
      RunKeepsReplay(cfg, events[..|events| - 1]);
      StepKeepsReplay(cfg, Run(cfg, events[..|events| - 1]), events[|events| - 1]);
    }
  }

  /** No request number is let through twice, over all crashes, shutdowns and restarts. */
  lemma NoRequestAcceptedTwice(cfg: Config, events: seq<Event>)
    requires cfg.Valid() && FreshRun(cfg, events) && NoneRaises(events)
    ensures Distinct(Run(cfg, events).accepted)
  {
    RunKeepsReplay(cfg, events);
  }

  // ---- Why the guarantee needs the peer ----

  /** A process whose file says "unknown" lets an old number through if its Echo were answered with it. */
  lemma StaleEchoIsAccepted(cfg: Config, s: System, p: Process, seqno: nat)
    requires s.process == Some(p) && p.window.None? && seqno in s.accepted
    ensures var e := Request(seqno, true, true, NoFault);
      !Fresh(s, e) && !Distinct(Step(cfg, s, e).accepted)
  {
    var after := Step(cfg, s, Request(seqno, true, true, NoFault)).accepted;
    assert after == s.accepted + [seqno];
    var i :| 0 <= i < |s.accepted| && s.accepted[i] == seqno;
    assert after[i] == after[|s.accepted|];
  }

  /** A clean shutdown wastes nothing: the next process goes on with the same number and window. */
  lemma ShutdownResumes(cfg: Config, s: System, p: Process)
    requires s.process == Some(p)
    ensures var after := Step(cfg, Step(cfg, s, Shutdown(NoFault)), Start);
      && after.process.Some? && after.process.value.sender == p.sender && after.process.value.window == p.window
      && after.issued == s.issued && after.accepted == s.accepted
  {
  }

  // ---- The code ----

  class FileContext {
    const cfg: Config
    var disk: Disk
    var running: bool
    var sender: nat
    var persisted: nat
    var chunk: nat
    var windowPersisted: bool
    var replay: Replay
    ghost var issued: seq<nat>
    ghost var accepted: seq<nat>

    constructor (cfg: Config)
      ensures this.cfg == cfg && State() == INIT && fresh(replay) && replay.size == cfg.size
    {
      this.cfg := cfg;
      disk, running, sender, persisted, chunk, windowPersisted := Absent, false, 0, 0, 0, true;
      replay := new Replay(cfg.size);
      issued, accepted := [], [];
    }

    ghost function State(): System
      reads this, replay
    {
      System(disk,
             if running then Some(Process(sender, persisted, chunk, windowPersisted, replay.window)) else None,
             issued, accepted)
    }

    ghost predicate Valid()
      reads this, replay
    {
      && cfg.Valid() && replay.size == cfg.size
      && (running && replay.window.Some? ==> Proper(cfg.size, replay.window.value))
    }

    method Load()
      requires !running && cfg.Valid()
      requires LoadedWindow(disk).Some? ==> Proper(cfg.size, LoadedWindow(disk).value)
      modifies this
      ensures State() == Step(cfg, old(State()), Start) && Valid()
      ensures fresh(replay)
    {
      var window := new Replay(cfg.size);
      chunk := cfg.chunkStart;
      match disk {
        case Absent =>
          sender := 0;
          window.InitializeEmpty();
          windowPersisted := true;
          PowPositive(cfg.size);
        case File(next, Unknown) =>
          sender := next;
          windowPersisted := false;
        case File(next, Saved(w)) =>
          sender := next;
          window.InitializeFromPersisted(w);
          windowPersisted := true;
      }
      replay := window;
      persisted := sender;
      running := true;
    }

    /** Writes a temporary file and puts it in place of the old one, unless writing fails. */
    method StoreFile(fault: Fault) returns (done: bool)
      requires running
      modifies this`disk, this`running
      ensures State() == Store(old(State()), old(State()).process.value, fault)
      ensures done <==> fault.NoFault?
    {
      var received := if windowPersisted then Saved(replay.window) else Unknown;
      if fault.Raised? {
        return false;
      } else if fault.BeforeReplace? {
        running := false;
        return false;
      }
      disk := File(persisted, received);
      running := !fault.AfterReplace?;
      return running;
    }

    method NewSequenceNumber(fault: Fault) returns (number: Option<nat>)
      requires running && Valid()
      modifies this`disk, this`running, this`sender, this`persisted, this`chunk, this`issued
      ensures State() == Step(cfg, old(State()), NewNumber(fault)) && Valid()
      ensures State().issued == old(issued) + if number.Some? then [number.value] else []
    {
      var r := sender;
      if r >= MAX_SEQNO {
        return None;
      }
      sender := sender + 1;
      if sender > persisted {
        persisted := persisted + chunk;
        chunk := if chunk * 2 <= cfg.chunkLimit then chunk * 2 else cfg.chunkLimit;
        var done := StoreFile(fault);
        if !done {
          return None;
        }
      }
      issued := issued + [r];
      return Some(r);
    }

    method ReplayWindowChanged(fault: Fault) returns (done: bool)
      requires running
      modifies this`disk, this`running, this`windowPersisted
      ensures var before := old(State()); var p := before.process.value;
        State() == if p.windowPersisted then Store(before, p.(windowPersisted := false), fault) else before
      ensures done <==> !old(windowPersisted) || fault.NoFault?
    {
      done := true;
      if windowPersisted {
        windowPersisted := false;
        done := StoreFile(fault);
      }
    }

    /** The part of `unprotect` that concerns the replay window of a request. */
    method UnprotectRequest(seqno: nat, decrypts: bool, echoMatches: bool, fault: Fault) returns (ok: bool)
      requires running && Valid()
      modifies this`disk, this`running, this`windowPersisted, this`accepted, replay
      ensures replay == old(replay)
      ensures State() == Step(cfg, old(State()), Request(seqno, decrypts, echoMatches, fault))
      ensures running ==> Valid()
      ensures accepted == old(accepted) + if ok then [seqno] else []
    {
      if !decrypts {
        return false;
      }
      if replay.window.None? {
        if !echoMatches {
          return false;
        }
        replay.InitializeFromFreshlySeen(seqno);
        StartsProper(cfg.size, seqno);
      } else {
        StrikeOutMeans(cfg.size, replay.window.value, seqno, seqno);
        var struck := replay.Strike(seqno);
        if !struck {
          return false;
        }
        var done := ReplayWindowChanged(fault);
        if !done {
          return false;
        }
      }
      accepted := accepted + [seqno];
      return true;
    }

    /** A response that carries a number of its own initializes the window as well. */
    method UnprotectResponse(own: Option<nat>, decrypts: bool)
      requires running && Valid()
      modifies replay
      ensures State() == Step(cfg, old(State()), Response(own, decrypts)) && Valid()
    {
      if decrypts && replay.window.None? && own.Some? {
        replay.InitializeFromFreshlySeen(own.value);
        StartsProper(cfg.size, own.value);
      }
    }

    method Destroy(fault: Fault)
      requires running
      modifies this`disk, this`running, this`windowPersisted, this`persisted
      ensures State() == Step(cfg, old(State()), Shutdown(fault))
    {
      windowPersisted := true;
      persisted := sender;
      var done := StoreFile(fault);
      running := false;
    }
  }
}
