/**
 The ingest pipeline as a system of small steps taken in any order by
 submitters, the worker, a refilling thread, the marker emitter and a crash.
 A step is what happens between two points at which another thread may run;
 the drop lock and the emit lock appear as guards.
 */
module Pipeline {
  import opened Prelude

  type Span = Bytes
  type Time = int

  datatype Window = Window(start: Time, end: Time)

  // ---- where spans are -----------------------------------------------------

  datatype Flow = Flow(
    maxQueue: int,              // not positive: unbounded
    hasSpill: bool,
    queue: seq<Span>,
    inHand: multiset<Span>,     // refused by the queue, not yet spilled or dropped
    spill: seq<Span>,           // spilled and not consumed
    unsaved: seq<Span>,         // consumed from the spill since its cursor was saved
    behind: nat,                // how many spans of the file the saved cursor has passed
    stale: bool,                // the file was emptied under a cursor that is not zero
    buried: seq<Span>,          // spilled to the file since then
    inFlight: Option<Span>,     // taken by the worker
    // history
    submitted: multiset<Span>,
    committed: multiset<Span>,
    errored: multiset<Span>,
    dropped: multiset<Span>,
    lost: multiset<Span>,       // in memory when the process crashed
    erased: multiset<Span>,     // buried when the file was emptied
    replayed: multiset<Span>)   // came back from the spill after a crash

  function Full(f: Flow): bool {
    f.maxQueue > 0 && |f.queue| >= f.maxQueue
  }

  function Held(o: Option<Span>): multiset<Span> {
    match o case None => multiset{} case Some(x) => multiset{x}
  }

  /** How often `x` occurs, counting every place that a span can be in. */
  function Count(f: Flow, x: Span): nat {
    Live(f, x) + Past(f, x)
  }

  function Live(f: Flow, x: Span): nat {
    multiset(f.queue)[x] + f.inHand[x] + multiset(f.spill)[x] + multiset(f.buried)[x] + Held(f.inFlight)[x]
  }

  function Past(f: Flow, x: Span): nat {
    f.committed[x] + f.errored[x] + f.dropped[x] + f.lost[x] + f.erased[x]
  }

  ghost predicate Conserved(f: Flow) {
    forall x :: Count(f, x) == f.submitted[x] + f.replayed[x]
  }

  // ---- drop accounting -----------------------------------------------------

  /** The emitter, by how far it got with a batch of `n` drops. */
  datatype Emitter =
    | Idle
    | Snapshot(n: nat, window: Option<Window>)   // batch read, drop lock released
    | Committed(n: nat, window: Option<Window>)  // marker in the ledger, pending count not yet reduced
    | Subtracted(n: nat)                         // pending count reduced, drop lock held, journal not yet written

  /**
   One gap marker in the ledger, when the drops that it stands for happened, and
   when all drops did since the pending count was last zero.
   */
  datatype Marker = Marker(n: nat, window: Option<Window>, times: seq<Time>, since: seq<Time>)

  datatype Drops = Drops(
    undeclared: nat,
    window: Option<Window>,
    journal: nat,                        // 0 stands for no file
    journalWindow: Option<Window>,
    journaling: bool,                    // a submitter holds the drop lock, its journal write is due
    emitter: Emitter,
    markers: seq<Marker>,                // durable
    recovered: nat,                      // pending count found at the last start
    // history
    times: seq<Time>,                    // when the pending drops happened, oldest first
    journalTimes: seq<Time>,
    since: seq<Time>,                    // when all drops happened since the pending count was last zero
    journalSince: seq<Time>,
    droppedHere: nat,                    // drops since the last start
    attestedHere: nat,                   // drops attested since the last start
    droppedEver: nat,
    forgotten: nat,                      // drops whose own journal write a crash prevented
    overcounted: nat,                    // drops attested and still journaled at a crash
    crashes: nat)

  function LockFree(d: Drops): bool {
    !d.journaling && !d.emitter.Subtracted?
  }

  /** Drops attested by the markers in the ledger. */
  function Attested(ms: seq<Marker>): nat {
    if ms == [] then 0 else Attested(ms[..|ms| - 1]) + ms[|ms| - 1].n
  }

  datatype State = State(flow: Flow, drops: Drops)

  predicate Init(s: State) {
    && s.flow == Flow(s.flow.maxQueue, s.flow.hasSpill, [], multiset{}, [], [], 0, false, [], None,
                      multiset{}, multiset{}, multiset{}, multiset{}, multiset{}, multiset{}, multiset{})
    && s.drops == Drops(0, None, 0, None, false, Idle, [], 0, [], [], [], [], 0, 0, 0, 0, 0, 0)
  }

  // ---- steps ---------------------------------------------------------------

  datatype Event =
    | Submit(span: Span)               // enqueue, or find the queue full
    | SpillIt(span: Span)              // overflow goes to the spill file
    | DropIt(span: Span, now: Time)    // spill absent or failed: count the drop under the drop lock
    | JournalDrop                      // the same submitter writes the journal and releases the lock
    | Refill                           // one span moves from the spill to the queue
    | SaveCursor                       // a drain ends; a file that was read to its end is emptied first
    | Surface(i: nat)                  // a drain that starts inside a buried file reads a span behind its first
    | Erase                            // a drain gets to the end of a buried file and empties it
    | Get                              // the worker takes a span
    | Finish(ok: bool)                 // committed, or given up on
    | EmitRead                         // the emitter reads the pending batch
    | EmitCommit                       // the marker is committed
    | EmitFail                         // the commit failed; nothing is reset
    | EmitSubtract                     // the batch is subtracted under the drop lock
    | EmitJournal                      // the journal is rewritten or cleared, the lock released
    | Crash                            // memory is lost; the next process starts
    | CompactCrash                     // the same, after a drain emptied the file and before it saved the cursor

  /** What the event asks of the flow. */
  predicate Movable(f: Flow, e: Event) {
    match e
    case SpillIt(x) => x in f.inHand && f.hasSpill
    case DropIt(x, _) => x in f.inHand
    case Refill => f.spill != [] && !Full(f)
    case SaveCursor => f.hasSpill
    case Surface(i) => f.stale && 0 < i < |f.buried| && !Full(f)
    case Erase => f.stale && f.buried != []
    case Get => f.inFlight.None? && f.queue != []
    case Finish(_) => f.inFlight.Some?
    case CompactCrash => f.hasSpill && f.spill == []
    case _ => true
  }

  /** What it asks of the drop accounting and its locks. */
  predicate Timely(d: Drops, e: Event) {
    match e
    case DropIt(_, _) => LockFree(d)
    case JournalDrop => d.journaling
    case EmitRead => d.emitter.Idle? && LockFree(d) && d.undeclared > 0
    case EmitCommit => d.emitter.Snapshot?
    case EmitFail => d.emitter.Snapshot?
    case EmitSubtract => d.emitter.Committed? && LockFree(d)
    case EmitJournal => d.emitter.Subtracted?
    case _ => true
  }

  predicate Enabled(s: State, e: Event) {
    Movable(s.flow, e) && Timely(s.drops, e)
  }

  /** Memory is gone. */
  function Restarted(f: Flow): Flow {
    f.(lost := f.lost + multiset(f.queue) + f.inHand + Held(f.inFlight),
       queue := [], inHand := multiset{}, inFlight := None)
  }

  function NextFlow(f: Flow, e: Event): Flow
    requires e.Refill? ==> f.spill != []
    requires e.Surface? ==> e.i < |f.buried|
    requires e.Get? ==> f.queue != []
    requires e.Finish? ==> f.inFlight.Some?
  {
    match e
    case Submit(x) =>
      var g := f.(submitted := f.submitted + multiset{x});
      if Full(f) then g.(inHand := f.inHand + multiset{x}) else g.(queue := f.queue + [x])
    case SpillIt(x) =>
      var g := f.(inHand := f.inHand - multiset{x});
      if f.stale then g.(buried := f.buried + [x]) else g.(spill := f.spill + [x])
    case DropIt(x, _) => f.(inHand := f.inHand - multiset{x}, dropped := f.dropped + multiset{x})
    case Refill =>
      f.(queue := f.queue + [f.spill[0]], unsaved := f.unsaved + [f.spill[0]], spill := f.spill[1..])
    case SaveCursor =>
      if f.stale then f.(unsaved := [], stale := f.buried != [])
      else f.(unsaved := [], behind := if f.spill == [] then 0 else f.behind + |f.unsaved|)
    case Surface(i) =>
      f.(queue := f.queue + [f.buried[i]], unsaved := f.unsaved + [f.buried[i]],
         buried := f.buried[..i] + f.buried[i + 1..])
    case Erase => f.(erased := f.erased + multiset(f.buried), buried := [], unsaved := [], stale := false)
    case Get => f.(inFlight := Some(f.queue[0]), queue := f.queue[1..])
    case Finish(ok) =>
      var x := multiset{f.inFlight.value};
      if ok then f.(inFlight := None, committed := f.committed + x)
      else f.(inFlight := None, errored := f.errored + x)
    case Crash =>
      var g := Restarted(f).(replayed := f.replayed + multiset(f.unsaved), unsaved := []);
      if f.stale then g.(buried := f.buried + f.unsaved) else g.(spill := f.unsaved + f.spill)
    case CompactCrash =>
      Restarted(f).(unsaved := [], behind := 0, stale := f.stale || f.behind > 0,
                    erased := f.erased + multiset(f.buried), buried := [])
    case _ => f
  }

  function NextDrops(d: Drops, e: Event): Drops
    requires e.EmitCommit? ==> d.emitter.Snapshot?
    requires e.EmitSubtract? ==> d.emitter.Committed?
  {
    match e
    case DropIt(_, now) =>
      d.(undeclared := d.undeclared + 1,
         window := Some(Window(if d.window.None? then now else d.window.value.start, now)),
         journaling := true,
         times := d.times + [now],
         since := d.since + [now],
         droppedHere := d.droppedHere + 1, droppedEver := d.droppedEver + 1)
    case JournalDrop =>
      d.(journal := d.undeclared, journalWindow := d.window, journalTimes := d.times, journalSince := d.since,
         journaling := false)
    case EmitRead => d.(emitter := Snapshot(d.undeclared, d.window))
    case EmitCommit =>
      var n, w := d.emitter.n, d.emitter.window;
      d.(emitter := Committed(n, w), attestedHere := d.attestedHere + n,
         markers := d.markers + [Marker(n, w, if n <= |d.times| then d.times[..n] else d.times, d.since)])
    case EmitFail => d.(emitter := Idle)
    case EmitSubtract =>
      var n := d.emitter.n;
      var left := if d.undeclared <= n then 0 else d.undeclared - n;
      d.(emitter := Subtracted(n), undeclared := left,
         window := if left == 0 then None else d.window,
         times := if n <= |d.times| then d.times[n..] else [],
         since := if left == 0 then [] else d.since)
    case EmitJournal =>
      d.(emitter := Idle, journal := d.undeclared, journalWindow := d.window, journalTimes := d.times,
         journalSince := d.since)
    case Crash => Recovered(d)
    case CompactCrash => Recovered(d)
    case _ => d
  }

  /** The next process starts from the journal. */
  function Recovered(d: Drops): Drops {
    d.(undeclared := d.journal, recovered := d.journal, window := d.journalWindow, times := d.journalTimes,
       since := d.journalSince, journaling := false, emitter := Idle, droppedHere := 0, attestedHere := 0,
       forgotten := d.forgotten + (if d.journaling then 1 else 0),
       overcounted := d.overcounted + InDoubt(d.emitter),
       crashes := d.crashes + 1)
  }

  /** Drops whose marker is in the ledger while the journal still counts them. */
  function InDoubt(em: Emitter): nat {
    if em.Committed? || em.Subtracted? then em.n else 0
  }

  function Next(s: State, e: Event): State
    requires Enabled(s, e)
  {
    State(NextFlow(s.flow, e), NextDrops(s.drops, e))
  }

  /** The state after a run; `None` when some step was not possible. */
  function Run(s: State, events: seq<Event>): Option<State> {
    if events == [] then Some(s)
    else
      match Run(s, events[..|events| - 1])
      case None => None
      case Some(t) =>
        var e := events[|events| - 1];
        if Enabled(t, e) then Some(Next(t, e)) else None
  }

  lemma {:induction false} RunStep(s: State, before: seq<Event>, t: State, e: Event)
    requires Run(s, before) == Some(t) && Enabled(t, e)
    ensures Run(s, before + [e]) == Some(Next(t, e))
  {
    assert (before + [e])[..|before|] == before;
  }

  // ---- span conservation ---------------------------------------------------

  /** How many more `x` there are than were submitted or replayed. */
  function Balance(f: Flow, x: Span): int {
    Count(f, x) - f.submitted[x] - f.replayed[x]
  }

  predicate Orderly(f: Flow) {
    && (f.maxQueue > 0 ==> |f.queue| <= f.maxQueue)
    && (!f.hasSpill ==> f.spill == [] && f.unsaved == [] && !f.stale)
    && (if f.stale then f.spill == [] && (f.buried == [] ==> f.unsaved == []) else f.buried == [])
  }

  ghost predicate FlowInv(f: Flow) {
    Conserved(f) && Orderly(f)
  }

  lemma OneMore(m: multiset<Span>, x: Span, y: Span)
    ensures (m + multiset{x})[y] == m[y] + (if x == y then 1 else 0)
  {
  }

  lemma CountMore(xs: seq<Span>, x: Span, y: Span)
    ensures multiset(xs + [x])[y] == multiset(xs)[y] + (if x == y then 1 else 0)
  {
    assert multiset(xs + [x]) == multiset(xs) + multiset{x};
  }

  lemma CountWithout(xs: seq<Span>, i: nat, y: Span)
    requires i < |xs|
    ensures multiset(xs[..i] + xs[i + 1..])[y] == multiset(xs)[y] - (if xs[i] == y then 1 else 0)
  {
    assert xs == xs[..i] + [xs[i]] + xs[i + 1..];
    assert multiset(xs) == multiset(xs[..i]) + multiset{xs[i]} + multiset(xs[i + 1..]);
  }

  lemma CountWithoutFirst(xs: seq<Span>, y: Span)
    requires xs != []
    ensures multiset(xs[1..])[y] == multiset(xs)[y] - (if xs[0] == y then 1 else 0)
  {
    assert xs == [xs[0]] + xs[1..];
    assert multiset(xs) == multiset{xs[0]} + multiset(xs[1..]);
  }

  lemma CountJoined(a: seq<Span>, b: seq<Span>, y: Span)
    ensures multiset(a + b)[y] == multiset(a)[y] + multiset(b)[y]
  {
    assert multiset(a + b) == multiset(a) + multiset(b);
  }

  lemma {:induction false} BalanceSubmit(f: Flow, x: Span, y: Span)
    ensures Balance(NextFlow(f, Submit(x)), y) == Balance(f, y)
  {
    OneMore(f.submitted, x, y);
    if Full(f) {
      OneMore(f.inHand, x, y);
    } else {
      CountMore(f.queue, x, y);
    }
    assert Past(NextFlow(f, Submit(x)), y) == Past(f, y);
  }

  lemma {:induction false} BalanceSpill(f: Flow, x: Span, y: Span)
    requires x in f.inHand
    ensures Balance(NextFlow(f, SpillIt(x)), y) == Balance(f, y)
  {
    CountMore(f.spill, x, y);
    CountMore(f.buried, x, y);
  }

  lemma {:induction false} BalanceDrop(f: Flow, x: Span, now: Time, y: Span)
    requires x in f.inHand
    ensures Balance(NextFlow(f, DropIt(x, now)), y) == Balance(f, y)
  {
  }

  lemma {:induction false} BalanceRefill(f: Flow, y: Span)
    requires f.spill != []
    ensures Balance(NextFlow(f, Refill), y) == Balance(f, y)
  {
    CountMore(f.queue, f.spill[0], y);
    CountWithoutFirst(f.spill, y);
    assert Past(NextFlow(f, Refill), y) == Past(f, y);
  }

  lemma {:induction false} BalanceSurface(f: Flow, i: nat, y: Span)
    requires i < |f.buried|
    ensures Balance(NextFlow(f, Surface(i)), y) == Balance(f, y)
  {
    CountMore(f.queue, f.buried[i], y);
    CountWithout(f.buried, i, y);
    assert Past(NextFlow(f, Surface(i)), y) == Past(f, y);
  }

  lemma {:induction false} BalanceGet(f: Flow, y: Span)
    requires f.queue != [] && f.inFlight.None?
    ensures Balance(NextFlow(f, Get), y) == Balance(f, y)
  {
    CountWithoutFirst(f.queue, y);
  }

  lemma {:induction false} BalanceFinish(f: Flow, ok: bool, y: Span)
    requires f.inFlight.Some?
    ensures Balance(NextFlow(f, Finish(ok)), y) == Balance(f, y)
  {
  }

  lemma {:induction false} BalanceCrash(f: Flow, y: Span)
    requires Orderly(f)
    ensures Balance(NextFlow(f, Crash), y) == Balance(f, y)
  {
    CountJoined(f.unsaved, f.spill, y);
    CountJoined(f.buried, f.unsaved, y);
  }

  lemma {:induction false} BalanceEmptied(f: Flow, e: Event, y: Span)
    requires e.Erase? || e.CompactCrash? || e.SaveCursor?
    ensures Balance(NextFlow(f, e), y) == Balance(f, y)
  {
  }

  /** No event changes the balance of any span. */
  lemma {:induction false} BalanceKept(f: Flow, e: Event, y: Span)
    requires Orderly(f) && Movable(f, e)
    ensures Balance(NextFlow(f, e), y) == Balance(f, y)
  {
    match e
    case Submit(x) => BalanceSubmit(f, x, y);
    case SpillIt(x) => BalanceSpill(f, x, y);
    case DropIt(x, now) => BalanceDrop(f, x, now, y);
    case Refill => BalanceRefill(f, y);
    case Surface(i) => BalanceSurface(f, i, y);
    case Get => BalanceGet(f, y);
    case Finish(ok) => BalanceFinish(f, ok, y);
    case Crash => BalanceCrash(f, y);
    case Erase => BalanceEmptied(f, e, y);
    case CompactCrash => BalanceEmptied(f, e, y);
    case SaveCursor => BalanceEmptied(f, e, y);
    case _ => assert NextFlow(f, e) == f;
  }

  lemma {:induction false} OrderlyKept(f: Flow, e: Event)
    requires Orderly(f) && Movable(f, e)
    ensures Orderly(NextFlow(f, e))
  {
  }

  lemma {:induction false} ConservedToo(f: Flow, g: Flow)
    requires Conserved(f) && forall y :: Balance(g, y) == Balance(f, y)
    ensures Conserved(g)
  {
    forall y ensures Count(g, y) == g.submitted[y] + g.replayed[y] {
      assert Balance(g, y) == Balance(f, y);
      assert Count(f, y) == f.submitted[y] + f.replayed[y];
    }
  }

  lemma {:induction false} FlowKept(f: Flow, e: Event)
    requires FlowInv(f) && Movable(f, e)
    ensures FlowInv(NextFlow(f, e))
  {
    OrderlyKept(f, e);
    forall y ensures Balance(NextFlow(f, e), y) == Balance(f, y) {
      BalanceKept(f, e, y);
    }
    ConservedToo(f, NextFlow(f, e));
  }

  /** In every reachable state, every submitted or replayed span is in exactly one place. */
  lemma {:induction false} SpanConservation(s: State, events: seq<Event>)
    requires Init(s) && Run(s, events).Some?
    ensures FlowInv(Run(s, events).value.flow)
  {
    if events != [] {
      var before := events[..|events| - 1];
      SpanConservation(s, before);
      FlowKept(Run(s, before).value.flow, events[|events| - 1]);
    }
  }

  // ---- when spans are buried -----------------------------------------------

  /** At some point of the run a span is spilled to a file that was emptied under a cursor that is not zero. */
  predicate SpillsStale(s: State, events: seq<Event>)
    requires Run(s, events).Some?
  {
    events != [] &&
    var before, e := events[..|events| - 1], events[|events| - 1];
    SpillsStale(s, before) || (e.SpillIt? && Run(s, before).value.flow.stale)
  }

  predicate NoneBuried(f: Flow) {
    f.buried == [] && f.erased == multiset{}
  }

  lemma {:induction false} BuriedStep(s: State, e: Event)
    requires Orderly(s.flow) && Enabled(s, e)
    ensures NoneBuried(Next(s, e).flow) <==> NoneBuried(s.flow) && !(e.SpillIt? && s.flow.stale)
  {
    match e
    case SpillIt(x) => BuriedSpill(s.flow, x);
    case Surface(i) => BuriedSurface(s.flow, i);
    case Erase => BuriedEmptied(s.flow, e);
    case Crash => BuriedCrash(s.flow);
    case CompactCrash => BuriedEmptied(s.flow, e);
    case _ => BuriedSame(s.flow, e);
  }

  lemma {:induction false} BuriedSame(f: Flow, e: Event)
    requires Movable(f, e) && !e.SpillIt? && !e.Surface? && !e.Erase? && !e.Crash? && !e.CompactCrash?
    ensures NoneBuried(NextFlow(f, e)) <==> NoneBuried(f)
  {
    assert NextFlow(f, e).buried == f.buried && NextFlow(f, e).erased == f.erased;
  }

  lemma {:induction false} BuriedSpill(f: Flow, x: Span)
    ensures NoneBuried(NextFlow(f, SpillIt(x))) <==> NoneBuried(f) && !f.stale
  {
  }

  lemma {:induction false} BuriedSurface(f: Flow, i: nat)
    requires 0 < i < |f.buried|
    ensures !NoneBuried(NextFlow(f, Surface(i))) && !NoneBuried(f)
  {
  }

  lemma {:induction false} BuriedCrash(f: Flow)
    requires Orderly(f)
    ensures NoneBuried(NextFlow(f, Crash)) <==> NoneBuried(f)
  {
  }

  lemma {:induction false} BuriedEmptied(f: Flow, e: Event)
    requires e.Erase? || e.CompactCrash?
    ensures NoneBuried(NextFlow(f, e)) <==> NoneBuried(f)
  {
    ErasedMore(f.erased, f.buried);
  }

  lemma ErasedMore(erased: multiset<Span>, buried: seq<Span>)
    ensures erased + multiset(buried) == multiset{} <==> erased == multiset{} && buried == []
  {
    assert buried != [] ==> (erased + multiset(buried))[buried[0]] > 0;
    assert erased <= erased + multiset(buried);
  }

  /** No span is buried or erased, exactly if none is spilled to such a file. */
  lemma {:induction false} BuriedIff(s: State, events: seq<Event>)
    requires Init(s) && Run(s, events).Some?
    ensures NoneBuried(Run(s, events).value.flow) <==> !SpillsStale(s, events)
  {
    if events != [] {
      var before := events[..|events| - 1];
      BuriedIff(s, before);
      SpanConservation(s, before);
      BuriedStep(Run(s, before).value, events[|events| - 1]);
    }
  }

  /** A queue of one slot: two spans go to the spill file, and one comes back and is passed by the saved cursor. */
  function PassOne(a: Span): seq<Event> {
    SpillTwo(a) + [Get] + [Refill] + [SaveCursor]
  }

  /** The other comes back and the file is emptied, but the process stops before the cursor is written. */
  function LoseCursor(a: Span): seq<Event> {
    PassOne(a) + [Finish(true)] + [Get] + [Refill] + [CompactCrash]
  }

  /** The next span that is spilled is erased by the next drain. */
  function EraseOne(a: Span): seq<Event> {
    LoseCursor(a) + [Submit(a)] + [Submit(a)] + [SpillIt(a)] + [Erase]
  }

  function SpillTwo(a: Span): seq<Event> {
    [Submit(a)] + [Submit(a)] + [SpillIt(a)] + [Submit(a)] + [SpillIt(a)]
  }

  lemma {:induction false} SpillTwoRun(s: State, a: Span) returns (t: State)
    requires Init(s) && s.flow.maxQueue == 1 && s.flow.hasSpill
    ensures Run(s, SpillTwo(a)) == Some(t)
    ensures t.flow == s.flow.(queue := [a], spill := [a, a], submitted := multiset{a, a, a})
  {
    assert Run(s, []) == Some(s);
    RunStep(s, [], s, Submit(a));
    assert [] + [Submit(a)] == [Submit(a)];
    t := Next(s, Submit(a));
    t := Spilled(s, [Submit(a)], t, a);
    t := Spilled(s, [Submit(a)] + [Submit(a)] + [SpillIt(a)], t, a);
  }

  lemma {:induction false} PassOneRun(s: State, a: Span) returns (t: State)
    requires Init(s) && s.flow.maxQueue == 1 && s.flow.hasSpill
    ensures Run(s, PassOne(a)) == Some(t)
    ensures t.flow == s.flow.(queue := [a], spill := [a], inFlight := Some(a), behind := 1,
                              submitted := multiset{a, a, a})
  {
    t := SpillTwoRun(s, a);
    RunStep(s, SpillTwo(a), t, Get);
    t := Next(t, Get);
    RunStep(s, SpillTwo(a) + [Get], t, Refill);
    t := Next(t, Refill);
    RunStep(s, SpillTwo(a) + [Get] + [Refill], t, SaveCursor);
    t := Next(t, SaveCursor);
  }

  /** A span that the full queue refuses goes to the file. */
  lemma {:induction false} Spilled(s: State, before: seq<Event>, t: State, a: Span) returns (u: State)
    requires Run(s, before) == Some(t) && Full(t.flow) && t.flow.hasSpill && t.flow.inHand == multiset{}
    ensures Run(s, before + [Submit(a)] + [SpillIt(a)]) == Some(u)
    ensures u.flow == (if t.flow.stale then t.flow.(buried := t.flow.buried + [a])
                       else t.flow.(spill := t.flow.spill + [a])).(submitted := t.flow.submitted + multiset{a})
  {
    RunStep(s, before, t, Submit(a));
    var mid := Next(t, Submit(a));
    RunStep(s, before + [Submit(a)], mid, SpillIt(a));
    u := Next(mid, SpillIt(a));
  }

  lemma {:induction false} LoseCursorRun(s: State, a: Span) returns (t: State)
    requires Init(s) && s.flow.maxQueue == 1 && s.flow.hasSpill
    ensures Run(s, LoseCursor(a)) == Some(t)
    ensures t.flow.stale && t.flow.buried == [] && t.flow.queue == [] && t.flow.inHand == multiset{}
    ensures t.flow.erased == multiset{} && t.flow.maxQueue == 1 && t.flow.hasSpill
  {
    t := PassOneRun(s, a);
    RunStep(s, PassOne(a), t, Finish(true));
    t := Next(t, Finish(true));
    RunStep(s, PassOne(a) + [Finish(true)], t, Get);
    t := Next(t, Get);
    RunStep(s, PassOne(a) + [Finish(true)] + [Get], t, Refill);
    t := Next(t, Refill);
    RunStep(s, PassOne(a) + [Finish(true)] + [Get] + [Refill], t, CompactCrash);
    t := Next(t, CompactCrash);
  }

  /** From the start: a span that was spilled is erased without having been delivered. */
  lemma {:induction false} ErasedRun(s: State, a: Span)
    requires Init(s) && s.flow.maxQueue == 1 && s.flow.hasSpill
    ensures var r := Run(s, EraseOne(a)); r.Some? && r.value.flow.erased == multiset{a}
  {
    var t := LoseCursorRun(s, a);
    RunStep(s, LoseCursor(a), t, Submit(a));
    t := Next(t, Submit(a));
    t := Spilled(s, LoseCursor(a) + [Submit(a)], t, a);
    RunStep(s, LoseCursor(a) + [Submit(a)] + [Submit(a)] + [SpillIt(a)], t, Erase);
    assert multiset([a]) == multiset{a};
  }

  // ---- runs without a crash ------------------------------------------------

  predicate CrashFree(events: seq<Event>) {
    forall i :: 0 <= i < |events| ==> !events[i].Crash? && !events[i].CompactCrash?
  }

  lemma {:induction false} CrashFreeNothingLost(s: State, events: seq<Event>)
    requires Init(s) && Run(s, events).Some? && CrashFree(events)
    ensures var f := Run(s, events).value.flow;
      f.lost == multiset{} && f.replayed == multiset{} && f.erased == multiset{} && f.buried == [] && !f.stale
  {
    if events != [] {
      var before, e := events[..|events| - 1], events[|events| - 1];
      CrashFreeNothingLost(s, before);
      OnlyCrashLoses(Run(s, before).value, e);
    }
  }

  lemma OnlyCrashLoses(s: State, e: Event)
    requires Enabled(s, e) && !e.Crash? && !e.CompactCrash? && !s.flow.stale && s.flow.buried == []
    ensures var f := Next(s, e).flow;
      && f.lost == s.flow.lost && f.replayed == s.flow.replayed && f.erased == s.flow.erased
      && !f.stale && f.buried == []
  {
  }

  /** Without a crash nothing is lost and nothing comes back, so the places partition what was submitted. */
  lemma CrashFreePartition(s: State, events: seq<Event>)
    requires Init(s) && Run(s, events).Some? && CrashFree(events)
    ensures var f := Run(s, events).value.flow;
      multiset(f.queue) + f.inHand + multiset(f.spill) + Held(f.inFlight) + f.committed + f.errored + f.dropped
      == f.submitted
  {
    SpanConservation(s, events);
    CrashFreeNothingLost(s, events);
    var f := Run(s, events).value.flow;
    var places :=
      multiset(f.queue) + f.inHand + multiset(f.spill) + Held(f.inFlight) + f.committed + f.errored + f.dropped;
    forall x ensures places[x] == f.submitted[x] {
      assert Count(f, x) == f.submitted[x] + f.replayed[x];
    }
  }
}
