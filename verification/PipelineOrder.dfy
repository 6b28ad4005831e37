/**
 What passes through the pipeline in which order, when it overflows, and that
 every drop can be attested: read off the states of a run, step by step.
 */
module PipelineOrder {
  import opened Prelude
  import opened Pipeline
  import opened DropAccounting

  /** The run without its last step, and the states before and after that step. */
  ghost function Before(s: State, events: seq<Event>): State
    requires events != [] && Run(s, events).Some?
  {
    Run(s, events[..|events| - 1]).value
  }

  function Gained(before: seq<Span>, after: seq<Span>): seq<Span> {
    if |after| > |before| then [after[|after| - 1]] else []
  }

  /** The spans that were put into the queue, in order. */
  ghost function Entered(s: State, events: seq<Event>): seq<Span>
    requires Run(s, events).Some?
  {
    if events == [] then []
    else Entered(s, events[..|events| - 1]) + Gained(Before(s, events).flow.queue, Run(s, events).value.flow.queue)
  }

  /** The spans that the worker took, in order. */
  ghost function Taken(s: State, events: seq<Event>): seq<Span>
    requires Run(s, events).Some?
  {
    if events == [] then []
    else
      var now := Run(s, events).value.flow.inFlight;
      Taken(s, events[..|events| - 1])
      + (if Before(s, events).flow.inFlight.None? && now.Some? then [now.value] else [])
  }

  /** The spans that were written to the spill file, in order. */
  ghost function Spilled(s: State, events: seq<Event>): seq<Span>
    requires Run(s, events).Some?
  {
    if events == [] then []
    else Spilled(s, events[..|events| - 1]) + Gained(Before(s, events).flow.spill, Run(s, events).value.flow.spill)
  }

  /** The spans that came back from the spill file, in order. */
  ghost function Refilled(s: State, events: seq<Event>): seq<Span>
    requires Run(s, events).Some?
  {
    if events == [] then []
    else
      var f := Run(s, events).value.flow;
      Refilled(s, events[..|events| - 1])
      + (if |f.spill| < |Before(s, events).flow.spill| then Gained(Before(s, events).flow.queue, f.queue) else [])
  }

  /** The submissions that found the queue full. */
  ghost function Refused(s: State, events: seq<Event>): multiset<Span>
    requires Run(s, events).Some?
  {
    if events == [] then multiset{}
    else
      Refused(s, events[..|events| - 1]) + TurnedAway(Before(s, events).flow, events[|events| - 1])
  }

  // ---- order ---------------------------------------------------------------

  function Left(f: Flow, g: Flow): seq<Span> {
    if f.inFlight.None? && g.inFlight.Some? then [g.inFlight.value] else []
  }

  lemma {:induction false} QueueStep(f: Flow, e: Event)
    requires Movable(f, e) && !e.Crash? && !e.CompactCrash? && !f.stale
    ensures var g := NextFlow(f, e); f.queue + Gained(f.queue, g.queue) == Left(f, g) + g.queue
  {
    if e.Get? || e.Submit? || e.Refill? {
      QueueMoves(f, e);
    } else {
      QueueStays(f, e);
    }
  }

  lemma {:induction false} QueueMoves(f: Flow, e: Event)
    requires Movable(f, e) && (e.Get? || e.Submit? || e.Refill?)
    ensures var g := NextFlow(f, e); f.queue + Gained(f.queue, g.queue) == Left(f, g) + g.queue
  {
  }

  lemma {:induction false} QueueStays(f: Flow, e: Event)
    requires Movable(f, e) && !e.Crash? && !e.CompactCrash? && !f.stale && !e.Get? && !e.Submit? && !e.Refill?
    ensures var g := NextFlow(f, e); g.queue == f.queue && (g.inFlight == f.inFlight || g.inFlight.None?)
  {
  }

  /** The queue is first in, first out. */
  lemma {:induction false} QueueFifo(s: State, events: seq<Event>)
    requires Init(s) && Run(s, events).Some? && CrashFree(events)
    ensures Taken(s, events) + Run(s, events).value.flow.queue == Entered(s, events)
  {
    if events != [] {
      var before, e := events[..|events| - 1], events[|events| - 1];
      var t := Run(s, before).value;
      QueueFifo(s, before);
      CrashFreeNothingLost(s, before);
      QueueStep(t.flow, e);
      var g := Next(t, e).flow;
      Moved(Taken(s, before), t.flow.queue, Gained(t.flow.queue, g.queue), Left(t.flow, g), g.queue);
    }
  }

  lemma {:induction false} Moved(done: seq<Span>, was: seq<Span>, came: seq<Span>, left: seq<Span>, now: seq<Span>)
    requires was + came == left + now
    ensures (done + left) + now == (done + was) + came
  {
    assert (done + left) + now == done + (left + now);
    assert (done + was) + came == done + (was + came);
  }

  function CameBack(f: Flow, g: Flow): seq<Span> {
    if |g.spill| < |f.spill| then Gained(f.queue, g.queue) else []
  }

  lemma {:induction false} SpillStep(f: Flow, e: Event)
    requires Movable(f, e) && !e.Crash? && !e.CompactCrash? && !f.stale
    ensures var g := NextFlow(f, e); f.spill + Gained(f.spill, g.spill) == CameBack(f, g) + g.spill
  {
    if !e.SpillIt? && !e.Refill? {
      SpillStays(f, e);
    }
  }

  lemma {:induction false} SpillStays(f: Flow, e: Event)
    requires Movable(f, e) && !e.Crash? && !e.CompactCrash? && !f.stale && !e.SpillIt? && !e.Refill?
    ensures NextFlow(f, e).spill == f.spill
  {
  }

  /** So is the spill file. */
  lemma {:induction false} SpillFifo(s: State, events: seq<Event>)
    requires Init(s) && Run(s, events).Some? && CrashFree(events)
    ensures Refilled(s, events) + Run(s, events).value.flow.spill == Spilled(s, events)
  {
    if events != [] {
      var before, e := events[..|events| - 1], events[|events| - 1];
      var t := Run(s, before).value;
      SpillFifo(s, before);
      CrashFreeNothingLost(s, before);
      SpillStep(t.flow, e);
      var g := Next(t, e).flow;
      Moved(Refilled(s, before), t.flow.spill, Gained(t.flow.spill, g.spill), CameBack(t.flow, g), g.spill);
    }
  }

  // ---- overflow ------------------------------------------------------------

  /** What a submission adds to what found the queue full. */
  function TurnedAway(f: Flow, e: Event): multiset<Span> {
    if e.Submit? && f.maxQueue > 0 && |f.queue| >= f.maxQueue then multiset{e.span} else multiset{}
  }

  lemma {:induction false} OverflowStep(f: Flow, e: Event, x: Span)
    requires Movable(f, e) && !e.Crash? && !e.CompactCrash? && !f.stale
    ensures var g := NextFlow(f, e);
      g.inHand[x] + g.dropped[x] + multiset(Gained(f.spill, g.spill))[x]
      == f.inHand[x] + f.dropped[x] + TurnedAway(f, e)[x]
  {
    if e.SpillIt? {
      assert Gained(f.spill, NextFlow(f, e).spill) == [e.span];
      assert multiset([e.span]) == multiset{e.span};
    } else {
      NoneSpilled(f, e);
      if !e.Submit? && !e.DropIt? {
        HandsStay(f, e);
      }
    }
  }

  lemma {:induction false} NoneSpilled(f: Flow, e: Event)
    requires Movable(f, e) && !e.Crash? && !e.CompactCrash? && !f.stale && !e.SpillIt?
    ensures Gained(f.spill, NextFlow(f, e).spill) == []
  {
  }

  lemma {:induction false} HandsStay(f: Flow, e: Event)
    requires Movable(f, e) && !e.Crash? && !e.CompactCrash? && !e.SpillIt? && !e.Submit? && !e.DropIt?
    ensures NextFlow(f, e).inHand == f.inHand && NextFlow(f, e).dropped == f.dropped
  {
  }

  /** What is spilled or dropped, or about to be, is what found the queue full: no more and no less. */
  lemma {:induction false} OverflowOnly(s: State, events: seq<Event>, x: Span)
    requires Init(s) && Run(s, events).Some? && CrashFree(events)
    ensures var f := Run(s, events).value.flow;
      f.inHand[x] + f.dropped[x] + multiset(Spilled(s, events))[x] == Refused(s, events)[x]
  {
    if events != [] {
      var before, e := events[..|events| - 1], events[|events| - 1];
      var t := Run(s, before).value;
      OverflowOnly(s, before, x);
      CrashFreeNothingLost(s, before);
      OverflowStep(t.flow, e, x);
      CountJoined(Spilled(s, before), Gained(t.flow.spill, Next(t, e).flow.spill), x);
    }
  }

  /** An unbounded queue never overflows: nothing is ever spilled or dropped, crash or not. */
  lemma {:induction false} UnboundedKeepsAll(s: State, events: seq<Event>)
    requires Init(s) && Run(s, events).Some? && s.flow.maxQueue <= 0
    ensures var f := Run(s, events).value.flow;
      && f.maxQueue <= 0 && f.inHand == multiset{} && f.dropped == multiset{} && f.erased == multiset{}
      && f.spill == [] && f.unsaved == [] && f.buried == [] && f.behind == 0 && !f.stale
  {
    if events != [] {
      UnboundedKeepsAll(s, events[..|events| - 1]);
    }
  }

  lemma {:induction false} SettingsStay(f: Flow, e: Event)
    requires Movable(f, e)
    ensures NextFlow(f, e).maxQueue == f.maxQueue && NextFlow(f, e).hasSpill == f.hasSpill
  {
  }

  /** The queue never holds more than it is allowed to, and nothing is spilled without a spill file. */
  lemma {:induction false} QueueBounded(s: State, events: seq<Event>)
    requires Init(s) && Run(s, events).Some?
    ensures var f := Run(s, events).value.flow;
      && f.maxQueue == s.flow.maxQueue && f.hasSpill == s.flow.hasSpill
      && (s.flow.maxQueue > 0 ==> |f.queue| <= s.flow.maxQueue) && (!s.flow.hasSpill ==> f.spill == [])
  {
    SpanConservation(s, events);
    if events != [] {
      var before := events[..|events| - 1];
      QueueBounded(s, before);
      SettingsStay(Run(s, before).value.flow, events[|events| - 1]);
    }
  }

  // ---- what the spill file keeps -------------------------------------------

  /** All spans that were ever written to the spill file. */
  function EverSpilled(events: seq<Event>): multiset<Span> {
    if events == [] then multiset{}
    else
      var e := events[|events| - 1];
      EverSpilled(events[..|events| - 1]) + (if e.SpillIt? then multiset{e.span} else multiset{})
  }

  /** The spans that a saved cursor has passed. */
  ghost function Passed(s: State, events: seq<Event>): multiset<Span>
    requires Run(s, events).Some?
  {
    if events == [] then multiset{}
    else
      Passed(s, events[..|events| - 1])
      + (if events[|events| - 1].SaveCursor? then multiset(Before(s, events).flow.unsaved) else multiset{})
  }

  predicate NoCompactCrash(events: seq<Event>) {
    forall i :: 0 <= i < |events| ==> !events[i].CompactCrash?
  }

  /** The spans that are still to be read once more after a crash. */
  function Kept(f: Flow, x: Span): nat {
    multiset(f.spill)[x] + multiset(f.unsaved)[x]
  }

  /** The file moved as it should for the span. */
  predicate KeptMoved(f: Flow, e: Event, g: Flow, x: Span) {
    && !g.stale && g.buried == []
    && Kept(g, x) == Kept(f, x) + (if e.SpillIt? then multiset{e.span}[x] else 0)
                     - (if e.SaveCursor? then multiset(f.unsaved)[x] else 0)
  }

  lemma {:induction false} KeptStep(f: Flow, e: Event, x: Span)
    requires Movable(f, e) && !e.CompactCrash? && !f.stale && f.buried == []
    ensures KeptMoved(f, e, NextFlow(f, e), x)
  {
    if e.SpillIt? {
      CountMore(f.spill, e.span, x);
    } else if e.Refill? {
      CountWithoutFirst(f.spill, x);
      CountMore(f.unsaved, f.spill[0], x);
    } else if e.Crash? {
      CountJoined(f.unsaved, f.spill, x);
    } else if !e.SaveCursor? {
      FileStays(f, e);
    }
  }

  lemma {:induction false} FileStays(f: Flow, e: Event)
    requires Movable(f, e) && !e.CompactCrash? && !f.stale && f.buried == []
    requires !e.SpillIt? && !e.Refill? && !e.Crash? && !e.SaveCursor?
    ensures var g := NextFlow(f, e); g.spill == f.spill && g.unsaved == f.unsaved && !g.stale && g.buried == []
  {
  }

  /**
   Whatever crashes, except between compaction and cursor write: a spilled span
   stays in the file, to be read once more, until a saved cursor has passed it.
   */
  lemma {:induction false} SpillKeepsSpans(s: State, events: seq<Event>, x: Span)
    requires Init(s) && Run(s, events).Some? && NoCompactCrash(events)
    ensures var f := Run(s, events).value.flow;
      && !f.stale && f.buried == []
      && EverSpilled(events)[x] == Kept(f, x) + Passed(s, events)[x]
  {
    if events != [] {
      var before := events[..|events| - 1];
      SpillKeepsSpans(s, before, x);
      KeptStep(Run(s, before).value.flow, events[|events| - 1], x);
    }
  }

  lemma {:induction false} UnsavedStep(f: Flow, e: Event)
    requires Movable(f, e) && !e.SaveCursor? && f.behind == 0 && !f.stale && f.buried == []
    ensures var g := NextFlow(f, e); g.behind == 0 && !g.stale && g.buried == [] && g.erased == f.erased
  {
  }

  /** As long as no cursor was saved, no crash at any point buries or erases a span. */
  lemma {:induction false} UnsavedCursorIsSafe(s: State, events: seq<Event>)
    requires Init(s) && Run(s, events).Some? && forall i :: 0 <= i < |events| ==> !events[i].SaveCursor?
    ensures var f := Run(s, events).value.flow;
      f.behind == 0 && !f.stale && f.buried == [] && f.erased == multiset{}
  {
    if events != [] {
      var before := events[..|events| - 1];
      UnsavedCursorIsSafe(s, before);
      UnsavedStep(Run(s, before).value.flow, events[|events| - 1]);
    }
  }

  // ---- what became of the spans that were taken ------------------------------

  /** The spans with which the worker finished, those that it committed or those that it gave up on. */
  ghost function Finished(s: State, events: seq<Event>, ok: bool): multiset<Span>
    requires Run(s, events).Some?
  {
    if events == [] then multiset{}
    else
      Finished(s, events[..|events| - 1], ok)
      + (if events[|events| - 1] == Finish(ok) then Held(Before(s, events).flow.inFlight) else multiset{})
  }

  lemma {:induction false} FinishStep(f: Flow, e: Event)
    requires Movable(f, e)
    ensures NextFlow(f, e).committed == f.committed + (if e == Finish(true) then Held(f.inFlight) else multiset{})
    ensures NextFlow(f, e).errored == f.errored + (if e == Finish(false) then Held(f.inFlight) else multiset{})
  {
  }

  /** A span counts as committed exactly if its commit succeeded, as an error exactly if it was given up. */
  lemma {:induction false} FinishedAreCounted(s: State, events: seq<Event>)
    requires Init(s) && Run(s, events).Some?
    ensures var f := Run(s, events).value.flow;
      f.committed == Finished(s, events, true) && f.errored == Finished(s, events, false)
  {
    if events != [] {
      var before := events[..|events| - 1];
      FinishedAreCounted(s, before);
      FinishStep(Run(s, before).value.flow, events[|events| - 1]);
    }
  }

  // ---- drops ---------------------------------------------------------------

  lemma {:induction false} DropStep(s: State, e: Event)
    requires Enabled(s, e)
    ensures var t := Next(s, e); |t.flow.dropped| - |s.flow.dropped| == t.drops.droppedEver - s.drops.droppedEver
  {
  }

  /** The accounting counts exactly the spans that were dropped, over every run with its crashes. */
  lemma {:induction false} DropsAreSpans(s: State, events: seq<Event>)
    requires Init(s) && Run(s, events).Some?
    ensures |Run(s, events).value.flow.dropped| == Run(s, events).value.drops.droppedEver
  {
    if events != [] {
      DropsAreSpans(s, events[..|events| - 1]);
      DropStep(Run(s, events[..|events| - 1]).value, events[|events| - 1]);
    }
  }

  /** In a crash-free run the markers in the ledger and the pending count add up to the spans that were dropped. */
  lemma {:induction false} AttestedAreSpans(s: State, events: seq<Event>)
    requires Init(s) && Run(s, events).Some? && CrashFree(events)
    ensures var t := Run(s, events).value;
      Attested(t.drops.markers) + t.drops.undeclared == |t.flow.dropped| + Unsubtracted(t.drops.emitter)
  {
    CrashFreeAttestation(s, events);
    DropsAreSpans(s, events);
  }

  // ---- every drop can be attested ------------------------------------------

  /** The next step towards attesting what is pending. */
  function NextMove(d: Drops): Event {
    if d.journaling then JournalDrop
    else match d.emitter
      case Idle => EmitRead
      case Snapshot(_, _) => EmitCommit
      case Committed(_, _) => EmitSubtract
      case Subtracted(_) => EmitJournal
  }

  /** How many such steps are left, at most. */
  function StepsLeft(d: Drops): nat {
    var phase :=
      match d.emitter
      case Idle => 4
      case Snapshot(_, _) => 3
      case Committed(_, _) => 2
      case Subtracted(_) => 5;
    2 * (5 * d.undeclared + phase) + if d.journaling then 1 else 0
  }

  /** Nothing is pending and no one is at work. */
  predicate Settled(d: Drops) {
    d.undeclared == 0 && LockFree(d) && d.emitter.Idle?
  }

  ghost predicate Accounted(d: Drops) {
    CountInv(d) && (d.emitter.Snapshot? || d.emitter.Committed? ==> d.emitter.n > 0)
  }

  /** The step is possible and brings the end nearer. */
  lemma {:induction false} MoveOn(s: State)
    requires Accounted(s.drops) && !Settled(s.drops)
    ensures Enabled(s, NextMove(s.drops))
    ensures var t := Next(s, NextMove(s.drops));
      Accounted(t.drops) && t.flow == s.flow && StepsLeft(t.drops) < StepsLeft(s.drops)
  {
    CountStep(s, NextMove(s.drops));
  }

  /** After these events nothing is pending, and the spans are where they were. */
  ghost predicate EndsSettled(s: State, events: seq<Event>, flow: Flow) {
    Run(s, events).Some? && var u := Run(s, events).value; Settled(u.drops) && Accounted(u.drops) && u.flow == flow
  }

  lemma {:induction false} SettleStep(s: State, before: seq<Event>, t: State) returns (e: Event, u: State)
    requires Run(s, before) == Some(t) && Accounted(t.drops) && !Settled(t.drops)
    ensures Run(s, before + [e]) == Some(u) && Accounted(u.drops) && u.flow == t.flow
    ensures StepsLeft(u.drops) < StepsLeft(t.drops) && CrashFree([e])
  {
    e := NextMove(t.drops);
    u := Next(t, e);
    MoveOn(t);
    RunStep(s, before, t, e);
  }

  /** The run goes on from `before` without a crash. */
  ghost predicate GoesOn(before: seq<Event>, all: seq<Event>) {
    before <= all && forall i :: |before| <= i < |all| ==> !all[i].Crash? && !all[i].CompactCrash?
  }

  lemma {:induction false} GoesOnStep(before: seq<Event>, e: Event, all: seq<Event>)
    requires GoesOn(before + [e], all) && CrashFree([e])
    ensures GoesOn(before, all)
  {
    assert all[|before|] == (before + [e])[|before|] == [e][0];
  }

  lemma {:induction false} SettleFrom(s: State, before: seq<Event>, t: State) returns (all: seq<Event>)
    requires Run(s, before) == Some(t) && Accounted(t.drops)
    ensures EndsSettled(s, all, t.flow) && GoesOn(before, all)
    decreases StepsLeft(t.drops)
  {
    if Settled(t.drops) {
      all := before;
    } else {
      var e, u := SettleStep(s, before, t);
      all := SettleFrom(s, before + [e], u);
      GoesOnStep(before, e, all);
    }
  }

  /**
   From every reachable state the emitter, left to itself, gets to a state in
   which no drop is pending and the journal is empty; the spans stay where they
   are. If there was no crash, the markers then attest all dropped spans.
   */
  lemma {:induction false} AllAttested(s: State, events: seq<Event>) returns (all: seq<Event>)
    requires Init(s) && Run(s, events).Some?
    ensures events <= all && Run(s, all).Some?
    ensures var t, u := Run(s, events).value, Run(s, all).value;
      && u.drops.undeclared == u.drops.journal == 0 && u.flow == t.flow
      && (CrashFree(events) ==> Attested(u.drops.markers) == |u.flow.dropped|)
  {
    CountsHold(s, events);
    EndsHold(s, events);
    all := SettleFrom(s, events, Run(s, events).value);
    if CrashFree(events) {
      assert CrashFree(all);
      AttestedAreSpans(s, all);
    }
  }
}
