/**
 What the gap markers in the ledger say about dropped spans, over every
 interleaving of submitters, emitter and crashes.
 */
module DropAccounting {
  import opened Prelude
  import opened Pipeline

  // ---- counts --------------------------------------------------------------

  /** Drops attested and not yet taken off the pending count. */
  function Unsubtracted(em: Emitter): nat {
    if em.Committed? then em.n else 0
  }

  ghost predicate CountInv(d: Drops) {
    && (d.emitter.Snapshot? || d.emitter.Committed? ==> d.emitter.n <= d.undeclared)
    && !(d.journaling && d.emitter.Subtracted?)
    && (d.journaling ==> d.undeclared > 0)
    // the journal is behind only while the drop lock is held
    && d.journal + (if d.journaling then 1 else 0)
       == d.undeclared + (if d.emitter.Subtracted? then d.emitter.n else 0)
    // since the last start
    && d.attestedHere + d.undeclared == d.recovered + d.droppedHere + Unsubtracted(d.emitter)
    // since ever
    && Attested(d.markers) + d.undeclared + d.forgotten
       == d.droppedEver + d.overcounted + Unsubtracted(d.emitter)
    && d.forgotten <= d.crashes
  }

  lemma {:induction false} AttestedMore(ms: seq<Marker>, m: Marker)
    ensures Attested(ms + [m]) == Attested(ms) + m.n
  {
    assert (ms + [m])[..|ms|] == ms;
  }

  lemma {:induction false} CountStep(s: State, e: Event)
    requires CountInv(s.drops) && Enabled(s, e)
    ensures CountInv(Next(s, e).drops)
  {
    var d := s.drops;
    if e.EmitCommit? {
      AttestedMore(d.markers, Marker(d.emitter.n, d.emitter.window,
                                     if d.emitter.n <= |d.times| then d.times[..d.emitter.n] else d.times, d.since));
    }
  }

  lemma {:induction false} CountsHold(s: State, events: seq<Event>)
    requires Init(s) && Run(s, events).Some?
    ensures CountInv(Run(s, events).value.drops)
  {
    if events != [] {
      var before := events[..|events| - 1];
      CountsHold(s, before);
      CountStep(Run(s, before).value, events[|events| - 1]);
    }
  }

  /** Whenever the drop lock is free, the journal on disk is the pending count. */
  lemma {:induction false} JournalIsPending(s: State, events: seq<Event>)
    requires Init(s) && Run(s, events).Some? && LockFree(Run(s, events).value.drops)
    ensures Run(s, events).value.drops.journal == Run(s, events).value.drops.undeclared
  {
    CountsHold(s, events);
  }

  /**
   In every reachable state: what the ledger attests and what is pending
   account for every drop ever made, except those whose own journal write a
   crash prevented (at most one per crash), and with those counted twice that
   a crash caught between marker commit and journal write.
   */
  lemma DropsAccounted(s: State, events: seq<Event>)
    requires Init(s) && Run(s, events).Some?
    ensures var d := Run(s, events).value.drops;
      && Attested(d.markers) + d.undeclared - Unsubtracted(d.emitter)
         == d.droppedEver - d.forgotten + d.overcounted
      && d.forgotten <= d.crashes
  {
    CountsHold(s, events);
  }

  /** A run with no crash in it. */
  lemma {:induction false} CrashFreeCounts(s: State, events: seq<Event>)
    requires Init(s) && Run(s, events).Some? && CrashFree(events)
    ensures var d := Run(s, events).value.drops;
      d.forgotten == 0 && d.overcounted == 0 && d.droppedHere == d.droppedEver && d.recovered == 0
  {
    if events != [] {
      var before, e := events[..|events| - 1], events[|events| - 1];
      CrashFreeCounts(s, before);
      NoCrashStep(Run(s, before).value, e);
    }
  }

  lemma NoCrashStep(s: State, e: Event)
    requires Enabled(s, e) && !e.Crash? && !e.CompactCrash?
    ensures var d, d' := s.drops, Next(s, e).drops;
      && d'.forgotten == d.forgotten && d'.overcounted == d.overcounted && d'.recovered == d.recovered
      && d'.droppedEver - d.droppedEver == d'.droppedHere - d.droppedHere
  {
  }

  /** In a crash-free run every drop is attested once or pending once. */
  lemma CrashFreeAttestation(s: State, events: seq<Event>)
    requires Init(s) && Run(s, events).Some? && CrashFree(events)
    ensures var d := Run(s, events).value.drops;
      Attested(d.markers) + d.undeclared == d.droppedEver + Unsubtracted(d.emitter)
  {
    CountsHold(s, events);
    CrashFreeCounts(s, events);
  }

  /**
   A crash loses no journaled drop: just after it, attested plus pending is
   not below what it was by the journal just before, and it is higher by
   exactly the batch that was in doubt.
   */
  lemma CrashKeepsJournal(s: State, events: seq<Event>)
    requires Init(s) && Run(s, events).Some?
    ensures var d := Run(s, events).value.drops;
      var d' := NextDrops(d, Crash);
      && d'.undeclared == d'.recovered == d.journal
      && d'.markers == d.markers
      && Attested(d'.markers) + d'.undeclared
         == Attested(d.markers) + d.undeclared - Unsubtracted(d.emitter)
            - (if d.journaling then 1 else 0) + InDoubt(d.emitter)
  {
    CountsHold(s, events);
  }

  // ---- windows -------------------------------------------------------------

  predicate InWindow(w: Option<Window>, t: Time) {
    w.Some? && w.value.start <= t <= w.value.end
  }

  /** Every time lies in the window. */
  predicate Covers(w: Option<Window>, times: seq<Time>) {
    forall i :: 0 <= i < |times| ==> InWindow(w, times[i])
  }

  /** The drop is not recorded as earlier than a pending one. */
  predicate InOrder(times: seq<Time>, now: Time) {
    forall i :: 0 <= i < |times| ==> times[i] <= now
  }

  /** Recording a drop keeps the pending drops covered exactly when it is in order. */
  lemma DropKeepsCover(d: Drops, x: Span, now: Time)
    requires Covers(d.window, d.times) && (d.times == [] ==> d.window.None?)
    ensures var d' := NextDrops(d, DropIt(x, now));
      Covers(d'.window, d'.times) <==> InOrder(d.times, now)
  {
    var d' := NextDrops(d, DropIt(x, now));
    assert d'.times == d.times + [now];
    if InOrder(d.times, now) {
      if d.times != [] {
        assert d.times[0] <= now;
      }
    } else {
      var i :| 0 <= i < |d.times| && d.times[i] > now;
      assert d'.times[i] == d.times[i];
    }
  }

  // The end of a window is always the last reading; only the readings before
  // it, and the start, can be out of order.

  /** The window ends at the last of the times, and there is one exactly if there are times. */
  predicate EndsLast(w: Option<Window>, times: seq<Time>) {
    if times == [] then w.None? else w.Some? && w.value.end == times[|times| - 1]
  }

  /** The window starts at the first of all drops since the pending count was last zero. */
  predicate StartsFirst(w: Option<Window>, since: seq<Time>) {
    if since == [] then w.None? else w.Some? && w.value.start == since[0]
  }

  ghost predicate EndInv(d: Drops) {
    && |d.times| == d.undeclared && EndsLast(d.window, d.times) && StartsFirst(d.window, d.since)
    && |d.journalTimes| == d.journal && EndsLast(d.journalWindow, d.journalTimes)
    && StartsFirst(d.journalWindow, d.journalSince)
    && (d.emitter.Snapshot? || d.emitter.Committed? ==>
        && 0 < d.emitter.n <= |d.times| && EndsLast(d.emitter.window, d.times[..d.emitter.n])
        && StartsFirst(d.emitter.window, d.since))
    && MarkersEndLast(d.markers)
  }

  /** Each marker stands for as many drops as it declares; its window is from the first since the count was zero to the last. */
  ghost predicate MarkersEndLast(ms: seq<Marker>) {
    forall k :: 0 <= k < |ms| ==>
      |ms[k].times| == ms[k].n > 0 && EndsLast(ms[k].window, ms[k].times) && StartsFirst(ms[k].window, ms[k].since)
  }

  lemma {:induction false} EndDrop(d: Drops, x: Span, now: Time)
    requires EndInv(d)
    ensures EndInv(NextDrops(d, DropIt(x, now)))
  {
    var d' := NextDrops(d, DropIt(x, now));
    if d.emitter.Snapshot? || d.emitter.Committed? {
      assert d'.times[..d.emitter.n] == d.times[..d.emitter.n];
    }
  }

  lemma {:induction false} EndSubtract(d: Drops)
    requires EndInv(d) && d.emitter.Committed?
    ensures EndInv(NextDrops(d, EmitSubtract))
  {
    var n := d.emitter.n;
    var d' := NextDrops(d, EmitSubtract);
    assert d'.times == d.times[n..] && |d'.times| == d'.undeclared;
  }

  lemma {:induction false} EndStep(s: State, e: Event)
    requires EndInv(s.drops) && Enabled(s, e)
    ensures EndInv(Next(s, e).drops)
  {
    var d := s.drops;
    match e
    case DropIt(x, now) => EndDrop(d, x, now);
    case EmitRead => assert d.times[..d.undeclared] == d.times;
    case EmitSubtract => EndSubtract(d);
    case _ =>
  }

  lemma {:induction false} EndsHold(s: State, events: seq<Event>)
    requires Init(s) && Run(s, events).Some?
    ensures EndInv(Run(s, events).value.drops)
  {
    if events != [] {
      var before := events[..|events| - 1];
      EndsHold(s, before);
      EndStep(Run(s, before).value, events[|events| - 1]);
    }
  }

  /** No reading of the batch is later than its last one, nor earlier than `start`. */
  predicate LastIsLatest(times: seq<Time>, start: Time)
    requires times != []
  {
    forall i :: 0 <= i < |times| ==> start <= times[i] <= times[|times| - 1]
  }

  lemma {:induction false} CoversIff(w: Option<Window>, times: seq<Time>)
    requires times != [] && EndsLast(w, times)
    ensures Covers(w, times) <==> LastIsLatest(times, w.value.start)
  {
    if Covers(w, times) {
      forall i | 0 <= i < |times| ensures w.value.start <= times[i] <= times[|times| - 1] {
        assert InWindow(w, times[i]);
      }
    }
  }

  /**
   In every run, a marker covers the drops that it stands for exactly if no
   reading of its batch is later than the batch's last one or earlier than that
   of the first drop since the pending count was last zero.
   */
  lemma {:induction false} MarkerCoversIff(s: State, events: seq<Event>, k: nat)
    requires Init(s) && Run(s, events).Some? && k < |Run(s, events).value.drops.markers|
    ensures var m := Run(s, events).value.drops.markers[k];
      && |m.times| == m.n > 0 && m.since != []
      && (Covers(m.window, m.times) <==> LastIsLatest(m.times, m.since[0]))
  {
    EndsHold(s, events);
    var m := Run(s, events).value.drops.markers[k];
    CoversIff(m.window, m.times);
  }

  /** The same for the drops that are pending. */
  lemma {:induction false} PendingCoveredIff(s: State, events: seq<Event>)
    requires Init(s) && Run(s, events).Some? && Run(s, events).value.drops.undeclared > 0
    ensures var d := Run(s, events).value.drops;
      && |d.times| == d.undeclared && d.since != []
      && (Covers(d.window, d.times) <==> LastIsLatest(d.times, d.since[0]))
  {
    EndsHold(s, events);
    var d := Run(s, events).value.drops;
    CoversIff(d.window, d.times);
  }

  // ---- runs in clock order -------------------------------------------------

  ghost predicate WindowInv(d: Drops) {
    && EndInv(d) && Covers(d.window, d.times) && Covers(d.journalWindow, d.journalTimes)
    && (d.emitter.Snapshot? || d.emitter.Committed? ==> Covers(d.emitter.window, d.times[..d.emitter.n]))
    && MarkersCover(d.markers)
  }

  ghost predicate MarkersCover(ms: seq<Marker>) {
    forall k :: 0 <= k < |ms| ==> Covers(ms[k].window, ms[k].times)
  }

  /** No drop of the run is recorded as earlier than one that is pending. */
  predicate OrderedRun(s: State, events: seq<Event>)
    requires Run(s, events).Some?
  {
    events == [] ||
    var before, e := events[..|events| - 1], events[|events| - 1];
    OrderedRun(s, before) && (e.DropIt? ==> InOrder(Run(s, before).value.drops.times, e.now))
  }

  lemma {:induction false} WindowDrop(d: Drops, x: Span, now: Time)
    requires WindowInv(d) && InOrder(d.times, now)
    ensures WindowInv(NextDrops(d, DropIt(x, now)))
  {
    DropKeepsCover(d, x, now);
    EndDrop(d, x, now);
    var d' := NextDrops(d, DropIt(x, now));
    if d.emitter.Snapshot? || d.emitter.Committed? {
      assert d'.times[..d.emitter.n] == d.times[..d.emitter.n];
    }
  }

  lemma {:induction false} CoversDrop(w: Option<Window>, times: seq<Time>, n: nat)
    requires Covers(w, times) && n <= |times|
    ensures Covers(w, times[n..])
  {
    var rest := times[n..];
    forall i | 0 <= i < |rest| ensures InWindow(w, rest[i]) {
      assert rest[i] == times[n + i];
    }
  }

  lemma {:induction false} WindowSubtract(d: Drops)
    requires WindowInv(d) && d.emitter.Committed?
    ensures WindowInv(NextDrops(d, EmitSubtract))
  {
    EndSubtract(d);
    CoversDrop(d.window, d.times, d.emitter.n);
    var d' := NextDrops(d, EmitSubtract);
    assert d'.times == d.times[d.emitter.n..];
    assert Covers(d'.window, d'.times);
  }

  lemma {:induction false} WindowStep(s: State, e: Event)
    requires WindowInv(s.drops) && Enabled(s, e)
    requires e.DropIt? ==> InOrder(s.drops.times, e.now)
    ensures WindowInv(Next(s, e).drops)
  {
    var d := s.drops;
    EndStep(s, e);
    match e
    case DropIt(x, now) => WindowDrop(d, x, now);
    case EmitRead => assert d.times[..d.undeclared] == d.times;
    case EmitSubtract => WindowSubtract(d);
    case _ =>
  }

  /** In clock order every marker covers its drops. */
  lemma {:induction false} WindowsHold(s: State, events: seq<Event>)
    requires Init(s) && Run(s, events).Some? && OrderedRun(s, events)
    ensures WindowInv(Run(s, events).value.drops)
  {
    if events != [] {
      var before := events[..|events| - 1];
      WindowsHold(s, before);
      WindowStep(Run(s, before).value, events[|events| - 1]);
    }
  }

  // ---- clock readings that cross -------------------------------------------

  /** `n` submissions of `x`. */
  function Submits(x: Span, n: nat): seq<Event> {
    if n == 0 then [] else Submits(x, n - 1) + [Submit(x)]
  }

  lemma {:induction false} FillUpTo(s: State, x: Span, n: nat) returns (t: State)
    requires Init(s) && n <= s.flow.maxQueue
    ensures Run(s, Submits(x, n)) == Some(t) && t.drops == s.drops
    ensures t.flow.inHand == multiset{} && |t.flow.queue| == n && t.flow.maxQueue == s.flow.maxQueue
    decreases n
  {
    if n == 0 {
      t := s;
    } else {
      var u := FillUpTo(s, x, n - 1);
      t := Next(u, Submit(x));
      RunStep(s, Submits(x, n - 1), u, Submit(x));
    }
  }

  /** A submission that finds the queue full. */
  lemma {:induction false} Refused(s: State, x: Span, n: nat, u: State) returns (t: State)
    requires Run(s, Submits(x, n)) == Some(u) && Full(u.flow)
    ensures Run(s, Submits(x, n + 1)) == Some(t) && Full(t.flow)
    ensures t.drops == u.drops && t.flow.inHand[x] == u.flow.inHand[x] + 1
  {
    t := Next(u, Submit(x));
    RunStep(s, Submits(x, n), u, Submit(x));
  }

  /** As many submissions as the queue holds, and two more: it is full and two spans are in the submitters' hands. */
  lemma {:induction false} FillQueue(s: State, x: Span) returns (t: State)
    requires Init(s) && s.flow.maxQueue > 0
    ensures Run(s, Submits(x, s.flow.maxQueue + 2)) == Some(t)
    ensures t.drops == s.drops && t.flow.inHand[x] == 2
  {
    var n := s.flow.maxQueue;
    t := FillUpTo(s, x, n);
    t := Refused(s, x, n, t);
    t := Refused(s, x, n + 1, t);
  }

  /** Drops at `times` are pending, their journal is written and the emitter is idle. */
  predicate Pending(d: Drops, times: seq<Time>, w: Option<Window>) {
    LockFree(d) && d.emitter.Idle? && d.times == d.since == times && d.undeclared == |times| && d.window == w
  }

  /** One drop, from the full queue to the written journal. */
  lemma {:induction false} DropOnce(s: State, before: seq<Event>, t: State, x: Span, now: Time) returns (u: State)
    requires Run(s, before) == Some(t) && t.flow.inHand[x] > 0
    requires Pending(t.drops, t.drops.times, t.drops.window)
    ensures Run(s, before + [DropIt(x, now)] + [JournalDrop]) == Some(u)
    ensures u.flow.inHand[x] == t.flow.inHand[x] - 1 && u.drops.markers == t.drops.markers
    ensures Pending(u.drops, t.drops.times + [now],
                    Some(Window(if t.drops.window.None? then now else t.drops.window.value.start, now)))
  {
    var mid := Next(t, DropIt(x, now));
    RunStep(s, before, t, DropIt(x, now));
    u := Next(mid, JournalDrop);
    RunStep(s, before + [DropIt(x, now)], mid, JournalDrop);
  }

  /** The pending drops get their marker. */
  lemma {:induction false} EmitOnce(s: State, before: seq<Event>, t: State) returns (u: State)
    requires Run(s, before) == Some(t) && t.drops.times != []
    requires Pending(t.drops, t.drops.times, t.drops.window)
    ensures Run(s, before + [EmitRead] + [EmitCommit]) == Some(u)
    ensures u.drops.markers == t.drops.markers + [Marker(|t.drops.times|, t.drops.window, t.drops.times, t.drops.since)]
  {
    var mid := Next(t, EmitRead);
    RunStep(s, before, t, EmitRead);
    u := Next(mid, EmitCommit);
    RunStep(s, before + [EmitRead], mid, EmitCommit);
    assert t.drops.times[..|t.drops.times|] == t.drops.times;
  }

  /** Two drops, at readings 5 and 3, and their marker. */
  function Crossing(x: Span, fill: seq<Event>): seq<Event> {
    fill + [DropIt(x, 5)] + [JournalDrop] + [DropIt(x, 3)] + [JournalDrop] + [EmitRead] + [EmitCommit]
  }

  /**
   From the start, with any bounded queue: it fills, two submitters hold
   refused spans, and their clock readings cross on the way to the drop lock.
   The marker then covers neither drop.
   */
  lemma {:induction false} CrossedClocks(s: State, x: Span)
    requires Init(s) && s.flow.maxQueue > 0
    ensures var r := Run(s, Crossing(x, Submits(x, s.flow.maxQueue + 2)));
      && r.Some?
      && r.value.drops.markers == [Marker(2, Some(Window(5, 3)), [5, 3], [5, 3])]
      && !InWindow(Some(Window(5, 3)), 5) && !InWindow(Some(Window(5, 3)), 3)
  {
    var fill := Submits(x, s.flow.maxQueue + 2);
    var t0 := FillQueue(s, x);
    var t1 := DropOnce(s, fill, t0, x, 5);
    var t2 := DropOnce(s, fill + [DropIt(x, 5)] + [JournalDrop], t1, x, 3);
    assert t2.drops.times == [5, 3];
    var t3 := EmitOnce(s, fill + [DropIt(x, 5)] + [JournalDrop] + [DropIt(x, 3)] + [JournalDrop], t2);
  }
}
