/**
 Flushing the pipeline when no submitter is active: whatever the schedule of
 the worker, flushing ends, and it ends with nothing left in the spill, the
 queue or the worker's hands.
 */
module Flush {
  import opened Prelude
  import opened Pipeline

  /** Where the flushing thread is. */
  datatype Pc = Refilling | Joining | Checking | Rejoining | Rechecking | Done

  /** `since` is the work that was left when the flushing thread last began to refill. */
  datatype Flushing = Flushing(flow: Flow, pc: Pc, since: nat)

  /** A step of the worker (or of a refill), or the flushing thread getting on. */
  datatype Move = Worker(e: Event) | Advance

  function Work(f: Flow): nat {
    3 * |f.spill| + 2 * |f.queue| + (if f.inFlight.Some? then 1 else 0)
  }

  /** What `join` waits for. */
  function Unfinished(f: Flow): nat {
    |f.queue| + (if f.inFlight.Some? then 1 else 0)
  }

  predicate Possible(s: Flushing, m: Move) {
    match m
    case Worker(e) => (e.Refill? || e.Get? || e.Finish?) && Movable(s.flow, e)
    case Advance =>
      (match s.pc
       case Refilling => s.flow.spill == [] || Full(s.flow)
       case Joining => Unfinished(s.flow) == 0
       case Checking => true
       case Rejoining => Unfinished(s.flow) == 0
       case Rechecking => true
       case Done => false)
  }

  function After(s: Flushing, m: Move): Flushing
    requires Possible(s, m)
  {
    match m
    case Worker(e) => s.(flow := NextFlow(s.flow, e))
    case Advance =>
      (match s.pc
       case Refilling => s.(pc := Joining)
       case Joining => s.(pc := Checking)
       case Checking =>
         if !s.flow.hasSpill then s.(pc := Done)
         else if s.flow.spill == [] then s.(pc := Rejoining)
         else s.(pc := Refilling, since := Work(s.flow))
       case Rejoining => s.(pc := Rechecking)
       case Rechecking =>
         if s.flow.spill == [] then s.(pc := Done) else s.(pc := Refilling, since := Work(s.flow))
       case Done => s)
  }

  function Rank(pc: Pc): nat {
    match pc
    case Refilling => 5
    case Joining => 4
    case Checking => 3
    case Rejoining => 2
    case Rechecking => 1
    case Done => 0
  }

  predicate FlushInv(s: Flushing) {
    var f := s.flow;
    && Work(f) <= s.since
    && (!f.hasSpill ==> f.spill == [])
    && (s.pc.Joining? ==> f.spill == [] || Work(f) < s.since || Unfinished(f) > 0)
    && (s.pc.Checking? ==> f.spill == [] || Work(f) < s.since)
    && (s.pc.Checking? && !f.hasSpill ==> Unfinished(f) == 0)
    && (s.pc.Rejoining? || s.pc.Rechecking? || s.pc.Done? ==> f.spill == [])
    && (s.pc.Rechecking? || s.pc.Done? ==> Unfinished(f) == 0)
  }

  /** Every step keeps the invariant and brings the end nearer. */
  lemma FlushStep(s: Flushing, m: Move)
    requires FlushInv(s) && Possible(s, m)
    ensures var t := After(s, m);
      && FlushInv(t)
      && (t.since < s.since
          || (t.since == s.since && Rank(t.pc) < Rank(s.pc))
          || (t.since == s.since && t.pc == s.pc && Work(t.flow) < Work(s.flow)))
  {
  }

  /** Until it is done, some step is possible: flushing cannot get stuck. */
  function SomeMove(s: Flushing): (m: Move)
    requires !s.pc.Done?
    ensures Possible(s, m)
  {
    if Possible(s, Advance) then Advance
    else if s.pc.Refilling? then Worker(Refill)
    else if s.flow.inFlight.Some? then Worker(Finish(true))
    else Worker(Get)
  }

  lemma FlushKeepsSpans(s: Flushing, m: Move)
    requires FlowInv(s.flow) && Possible(s, m)
    ensures FlowInv(After(s, m).flow)
    ensures var f, g := s.flow, After(s, m).flow;
      && g.submitted == f.submitted && g.replayed == f.replayed && g.hasSpill == f.hasSpill
      && g.dropped == f.dropped && g.lost == f.lost && g.inHand == f.inHand
      && g.buried == f.buried && g.erased == f.erased
  {
    match m
    case Worker(e) =>
      match e {
        case Refill => FlowKept(s.flow, Refill);
        case Get => FlowKept(s.flow, Get);
        case Finish(ok) => FlowKept(s.flow, Finish(ok));
        case _ =>
      }
    case Advance =>
  }

  /**
   Flushing under any schedule: `schedule` picks each step from the number of
   steps so far and the state, and is overruled only when it picks a step that
   is not possible. Every span in the pipeline ends up committed or counted as
   an error. No span is buried in the spill file under an older cursor.
   */
  method RunFlush(start: Flow, schedule: (nat, Flushing) -> Move) returns (end: Flow)
    requires FlowInv(start) && start.inHand == multiset{} && start.buried == []
    ensures end.queue == [] && end.spill == [] && end.inFlight == None
    ensures end.submitted == start.submitted && end.dropped == start.dropped && end.lost == start.lost
    ensures end.erased == start.erased
    ensures forall x :: Past(end, x) == start.submitted[x] + start.replayed[x]
  {
    var s := Flushing(start, Refilling, Work(start));
    var steps := 0;
    while !s.pc.Done?
      invariant FlushInv(s) && FlowInv(s.flow)
      invariant s.flow.submitted == start.submitted && s.flow.replayed == start.replayed
      invariant s.flow.dropped == start.dropped && s.flow.lost == start.lost && s.flow.inHand == start.inHand
      invariant s.flow.buried == start.buried && s.flow.erased == start.erased
      decreases s.since, Rank(s.pc), Work(s.flow)
    {
      var m := schedule(steps, s);
      if !Possible(s, m) {
        m := SomeMove(s);
      }
      FlushStep(s, m);
      FlushKeepsSpans(s, m);
      s := After(s, m);
      steps := steps + 1;
    }
    end := s.flow;
    forall x ensures Past(end, x) == start.submitted[x] + start.replayed[x] {
      assert Count(end, x) == end.submitted[x] + end.replayed[x];
    }
  }
}
