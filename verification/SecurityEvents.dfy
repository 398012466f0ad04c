/**
 What a security context does at each event, in every run: which number it hands out, which
 requests it lets through, and how many numbers a crash wastes (appendix B.1 of RFC 8613).
 */
module SecurityEvents {
  import opened Bytes
  import opened ReplayWindow
  import opened SecurityContext
  import FailedStores

  lemma LastStep(cfg: Config, events: seq<Event>, e: Event)
    ensures Run(cfg, events + [e]) == Step(cfg, Run(cfg, events), e)
  {
    assert (events + [e])[..|events|] == events;
  }

  /** A number is at hand: it fits five bytes, and what must be stored for it is stored. */
  predicate NumberAtHand(s: System, fault: Fault) {
    && s.process.Some? && s.process.value.sender < 0xFF_FFFF_FFFF
    && (fault.NoFault? || s.process.value.sender < s.process.value.persisted)
  }

  /** In every run the next number is handed out exactly if it is at hand. */
  lemma NumberTakenExactly(cfg: Config, events: seq<Event>, fault: Fault)
    ensures var s, t := Run(cfg, events), Run(cfg, events + [NewNumber(fault)]);
      if NumberAtHand(s, fault) then
        && t.issued == s.issued + [s.process.value.sender]
        && t.process.Some? && t.process.value.sender == s.process.value.sender + 1
      else t.issued == s.issued
  {
    LastStep(cfg, events, NewNumber(fault));
    hide Run;
  }

  /** A request is let through: by its Echo if the window is unknown, and otherwise by the window. */
  predicate LetThrough(cfg: Config, s: System, e: Event)
    requires e.Request?
  {
    && s.process.Some? && e.decrypts
    && var p := s.process.value;
      if p.window.None? then e.echoMatches
      else IsValid(cfg.size, p.window.value, e.seqno) && (p.windowPersisted ==> e.fault.NoFault?)
  }

  /** In every run exactly these requests are let through. */
  lemma RequestLetThroughExactly(cfg: Config, events: seq<Event>, e: Event)
    requires cfg.Valid() && e.Request?
    ensures var s, t := Run(cfg, events), Run(cfg, events + [e]);
      && t.accepted == s.accepted + (if LetThrough(cfg, s, e) then [e.seqno] else [])
      && t.issued == s.issued
  {
    var s := Run(cfg, events);
    LastStep(cfg, events, e);
    FailedStores.RunIsProper(cfg, events);
    assert s.accepted + [] == s.accepted;
    if s.process.Some? && s.process.value.window.Some? {
      StrikeOutMeans(cfg.size, s.process.value.window.value, e.seqno, e.seqno);
    }
    hide Run, StrikeOut, IsValid;
  }

  predicate Accepts(cfg: Config, s: System, m: nat) {
    && s.process.Some? && s.process.value.window.Some?
    && IsValid(cfg.size, s.process.value.window.value, m)
  }

  predicate Uninitialized(s: System) {
    s.process.Some? && s.process.value.window.None?
  }

  /** The number by which an event initializes the window. */
  function InitializedBy(s: System, e: Event): Option<nat> {
    if !Uninitialized(s) then None
    else if e.Request? && e.decrypts && e.echoMatches then Some(e.seqno)
    else if e.Response? && e.decrypts then e.own
    else None
  }

  /**
   In every run, which numbers the window accepts behind an event that the process survives:
   those above the number that initializes it; without a decrypted request's number and what
   falls out of the window behind it; or the same as before.
   */
  lemma WindowExactly(cfg: Config, events: seq<Event>, e: Event, m: nat)
    requires cfg.Valid() && Run(cfg, events).process.Some? && Run(cfg, events + [e]).process.Some?
    ensures var s, t := Run(cfg, events), Run(cfg, events + [e]);
      if InitializedBy(s, e).Some? then Accepts(cfg, t, m) <==> m > InitializedBy(s, e).value
      else if e.Request? && e.decrypts && Accepts(cfg, s, e.seqno) then
        Accepts(cfg, t, m) <==> Accepts(cfg, s, m) && m != e.seqno && m + cfg.size > e.seqno
      else t.process.value.window == s.process.value.window
  {
    hide *;
    LastStep(cfg, events, e);
    FailedStores.RunIsProper(cfg, events);
    ProcessIsProper(cfg, Run(cfg, events));
    StepWindow(cfg, Run(cfg, events), e);
    WindowBehind(cfg, Run(cfg, events), e, m);
  }

  lemma ProcessIsProper(cfg: Config, s: System)
    requires FailedStores.WindowsProper(cfg.size, s)
    ensures s.process.Some? && s.process.value.window.Some? ==> Proper(cfg.size, s.process.value.window.value)
  {
  }

  /** The window behind an event that the process survives. */
  function NextWindow(cfg: Config, s: System, e: Event): Option<Window>
    requires s.process.Some?
  {
    var window := s.process.value.window;
    if InitializedBy(s, e).Some? then Some(FreshlySeen(InitializedBy(s, e).value))
    else if e.Request? && e.decrypts && window.Some? && StrikeOut(cfg.size, window.value, e.seqno).Some? then
      StrikeOut(cfg.size, window.value, e.seqno)
    else window
  }

  lemma StepWindow(cfg: Config, s: System, e: Event)
    requires s.process.Some? && Step(cfg, s, e).process.Some?
    ensures Step(cfg, s, e).process.value.window == NextWindow(cfg, s, e)
  {
    hide StrikeOut, FreshlySeen;
  }

  lemma WindowBehind(cfg: Config, s: System, e: Event, m: nat)
    requires cfg.Valid() && s.process.Some? && Step(cfg, s, e).process.Some?
    requires s.process.value.window.Some? ==> Proper(cfg.size, s.process.value.window.value)
    requires Step(cfg, s, e).process.value.window == NextWindow(cfg, s, e)
    ensures var t := Step(cfg, s, e);
      if InitializedBy(s, e).Some? then Accepts(cfg, t, m) <==> m > InitializedBy(s, e).value
      else if e.Request? && e.decrypts && Accepts(cfg, s, e.seqno) then
        Accepts(cfg, t, m) <==> Accepts(cfg, s, m) && m != e.seqno && m + cfg.size > e.seqno
      else t.process.value.window == s.process.value.window
  {
    hide Step, StrikeOut, FreshlySeen, Proper;
    if InitializedBy(s, e).Some? {
      StartsProper(cfg.size, InitializedBy(s, e).value);
    } else if e.Request? && s.process.value.window.Some? {
      StrikeOutMeans(cfg.size, s.process.value.window.value, e.seqno, m);
    }
  }

  // ---- What a crash wastes ----

  /** How many times this process has gone ahead of the numbers it covers. */
  function Stores(cfg: Config, events: seq<Event>): nat {
    if events == [] then 0
    else
      var front, e := events[..|events| - 1], events[|events| - 1];
      var s := Run(cfg, front);
      if s.process.None? then 0
      else if StoresAhead(s, e) then Stores(cfg, front) + 1
      else Stores(cfg, front)
  }

  function Larger(a: nat, b: nat): nat {
    if a >= b then a else b
  }

  /** The chunk behind `n` stores: doubled each time, up to the limit. */
  predicate ChunkIs(cfg: Config, n: nat, chunk: nat) {
    if n == 0 then chunk == cfg.chunkStart
    else if cfg.chunkStart * Pow2(n) <= cfg.chunkLimit then chunk == cfg.chunkStart * Pow2(n)
    else chunk == cfg.chunkLimit
  }

  lemma ChunkStep(cfg: Config, n: nat, chunk: nat)
    requires cfg.Valid() && ChunkIs(cfg, n, chunk)
    ensures ChunkIs(cfg, n + 1, if chunk * 2 <= cfg.chunkLimit then chunk * 2 else cfg.chunkLimit)
  {
    assert Pow2(n + 1) == 2 * Pow2(n);
    assert cfg.chunkStart * Pow2(n + 1) == 2 * (cfg.chunkStart * Pow2(n));
    if n == 0 {
      assert Pow2(1) == 2;
    }
  }

  /** In every run the chunk begins anew in each process and doubles with each store, up to the limit. */
  lemma {:induction false} ChunkDoubles(cfg: Config, events: seq<Event>)
    requires cfg.Valid() && Run(cfg, events).process.Some?
    ensures ChunkIs(cfg, Stores(cfg, events), Run(cfg, events).process.value.chunk)
  {
    if events != [] {
      var n := |events| - 1;
      var s, e := Run(cfg, events[..n]), events[n];
      assert Run(cfg, events) == Step(cfg, s, e);
      hide Run, ChunkIs, Step;
      StepChunk(cfg, s, e);
      if s.process.Some? {
        ChunkDoubles(cfg, events[..n]);
        ChunkStep(cfg, Stores(cfg, events[..n]), s.process.value.chunk);
      } else {
        assert ChunkIs(cfg, 0, cfg.chunkStart);
      }
    }
  }

  /** The process is about to take a number that is not covered by the file. */
  predicate StoresAhead(s: System, e: Event) {
    s.process.Some? && e.NewNumber? && s.process.value.persisted <= s.process.value.sender < 0xFF_FFFF_FFFF
  }

  lemma StepChunk(cfg: Config, s: System, e: Event)
    requires Step(cfg, s, e).process.Some?
    ensures var chunk := Step(cfg, s, e).process.value.chunk;
      if s.process.None? then chunk == cfg.chunkStart
      else
        var before := s.process.value.chunk;
        chunk == if !StoresAhead(s, e) then before
          else if before * 2 <= cfg.chunkLimit then before * 2 else cfg.chunkLimit
  {
    hide StrikeOut, FreshlySeen;
  }

  /**
   In every run without failed stores: what the next process would skip, were this one to
   crash, is less than the largest chunk.
   */
  lemma {:induction false} CrashWastesFew(cfg: Config, events: seq<Event>)
    requires cfg.Valid() && NoneRaises(events) && Run(cfg, events).process.Some?
    ensures var p := Run(cfg, events).process.value; var largest := Larger(cfg.chunkStart, cfg.chunkLimit);
      && p.sender <= p.persisted < p.sender + largest && 0 < p.chunk <= largest
    ensures Run(cfg, events + [Crash, Start]).process == Some(Load(cfg, Run(cfg, events).disk))
    ensures Run(cfg, events + [Crash, Start]).process.value.sender == Run(cfg, events).process.value.persisted
  {
    var s := Run(cfg, events);
    RunKeepsNumbers(cfg, events);
    LastStep(cfg, events, Crash);
    LastStep(cfg, events + [Crash], Start);
    assert events + [Crash] + [Start] == events + [Crash, Start];
    if events != [] {
      var n := |events| - 1;
      var before, e := Run(cfg, events[..n]), events[n];
      assert s == Step(cfg, before, e);
      RunKeepsNumbers(cfg, events[..n]);
      if before.process.Some? {
        CrashWastesFew(cfg, events[..n]);
      }
      assert !Raises(e);
      hide Run, StrikeOut, FreshlySeen, Ascending, Below;
    }
  }

  // ---- A first start, a crash and a restart ----

  lemma Steps(cfg: Config, e1: Event, e2: Event)
    ensures Run(cfg, [e1, e2]) == Step(cfg, Step(cfg, INIT, e1), e2)
  {
    assert [e1, e2][..1] == [e1] && [e1][..0] == [];
    assert Run(cfg, []) == INIT;
    assert Run(cfg, [e1]) == Step(cfg, INIT, e1);
  }

  /** Without a file numbers begin with 0, and any request is let through. */
  lemma FirstStart(cfg: Config, seqno: nat)
    requires cfg.Valid()
    ensures Run(cfg, [Start, NewNumber(NoFault)]).issued == [0]
    ensures Run(cfg, [Start, Request(seqno, true, false, NoFault)]).accepted == [seqno]
  {
    Steps(cfg, Start, NewNumber(NoFault));
    Steps(cfg, Start, Request(seqno, true, false, NoFault));
    StartsProper(cfg.size, 0);
    StrikeOutMeans(cfg.size, EMPTY, seqno, seqno);
    hide Run, StrikeOut;
  }

  /** After a crash the numbers of the chunk are skipped. */
  lemma CrashSkips(cfg: Config)
    requires cfg.Valid()
    ensures Run(cfg, [Start, NewNumber(NoFault)] + [Crash] + [Start] + [NewNumber(NoFault)]).issued
      == [0, cfg.chunkStart] || cfg.chunkStart >= 0xFF_FFFF_FFFF
  {
    var e := NewNumber(NoFault);
    Steps(cfg, Start, e);
    LastStep(cfg, [Start, e], Crash);
    LastStep(cfg, [Start, e] + [Crash], Start);
    LastStep(cfg, [Start, e] + [Crash] + [Start], e);
    hide Run;
  }

  /** After a request and a crash only an Echo lets the next one through. */
  lemma CrashForgets(cfg: Config, seqno: nat, next: nat, echo: bool)
    requires cfg.Valid()
    ensures Run(cfg, [Start, Request(seqno, true, false, NoFault)] + [Crash] + [Start]
                     + [Request(next, true, echo, NoFault)]).accepted
      == if echo then [seqno, next] else [seqno]
  {
    var e, f := Request(seqno, true, false, NoFault), Request(next, true, echo, NoFault);
    Steps(cfg, Start, e);
    LastStep(cfg, [Start, e], Crash);
    LastStep(cfg, [Start, e] + [Crash], Start);
    LastStep(cfg, [Start, e] + [Crash] + [Start], f);
    StartsProper(cfg.size, 0);
    StrikeOutMeans(cfg.size, EMPTY, seqno, seqno);
    hide Run, StrikeOut;
  }
}
