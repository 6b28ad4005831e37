/**
 What the results of an evaluation say about the events: which of them are
 cited as evidence and which as gaps, in what order, and when an error comes
 of it.
 */
module EvidenceLaws {
  import opened Json
  import opened PyValue
  import opened Crosswalk
  import opened Evaluate

  /** The event is in scope and the condition holds of it. */
  predicate Passes(events: seq<Value>, ctrl: Control, k: nat) {
    k < |events| && Matches(events[k], ctrl.scope) && Holds(events, k, ctrl.condition) == Is(true)
  }

  /** The event is in scope and the condition does not hold of it. */
  predicate Fails(events: seq<Value>, ctrl: Control, k: nat) {
    k < |events| && Matches(events[k], ctrl.scope) && Holds(events, k, ctrl.condition) == Is(false)
  }

  /** Positions in the order of the log, each once. */
  predicate InLogOrder(at: seq<nat>) {
    forall i, j :: 0 <= i < j < |at| ==> at[i] < at[j]
  }

  /** The ids of the first fifty of these events, in order. */
  predicate FirstIds(ids: seq<Value>, events: seq<Value>, at: seq<nat>) {
    && |ids| == (if |at| <= 50 then |at| else 50)
    && forall j :: 0 <= j < |ids| ==> at[j] < |events| && ids[j] == GetPath(events[at[j]], ["event_id"])
  }

  // ---- positions in order --------------------------------------------------

  lemma {:induction false} ScopedInOrder(events: seq<Value>, f: Filter, i: nat)
    requires i <= |events|
    ensures InLogOrder(Scoped(events, f, i))
    decreases |events| - i
  {
    if i < |events| {
      ScopedInOrder(events, f, i + 1);
      var rest := Scoped(events, f, i + 1);
      forall j | 0 <= j < |rest| ensures i < rest[j] {
        assert rest[j] in rest;
      }
    }
  }

  lemma {:induction false} GapsInOrder(events: seq<Value>, i: nat)
    requires i <= |events|
    ensures InLogOrder(Gaps(events, i))
    decreases |events| - i
  {
    if i < |events| {
      GapsInOrder(events, i + 1);
      var rest := Gaps(events, i + 1);
      forall j | 0 <= j < |rest| ensures i < rest[j] {
        assert rest[j] in rest;
      }
    }
  }

  lemma {:induction false} PickInOrder(scoped: seq<nat>, vs: seq<Truth>, met: bool, i: nat)
    requires |vs| == |scoped| && i <= |scoped| && InLogOrder(scoped)
    ensures InLogOrder(Pick(scoped, vs, met, i))
    decreases |scoped| - i
  {
    if i < |scoped| {
      PickInOrder(scoped, vs, met, i + 1);
      var rest := Pick(scoped, vs, met, i + 1);
      forall j | 0 <= j < |rest| ensures scoped[i] < rest[j] {
        assert rest[j] in rest;
        var k := PickedAt(scoped, vs, met, i + 1, rest[j]);
      }
    }
  }

  /** The picked positions are those of the scope whose verdict is (or is not) that the condition holds. */
  lemma {:induction false} PickedExactly(events: seq<Value>, ctrl: Control, met: bool, k: nat)
    ensures var scoped := Scoped(events, ctrl.scope, 0);
      k in Pick(scoped, Verdicts(events, scoped, ctrl.condition), met, 0)
      <==> k < |events| && Matches(events[k], ctrl.scope) && (Holds(events, k, ctrl.condition) == Is(true)) == met
  {
    var scoped := Scoped(events, ctrl.scope, 0);
    var vs := Verdicts(events, scoped, ctrl.condition);
    if k in Pick(scoped, vs, met, 0) {
      var j := PickedAt(scoped, vs, met, 0, k);
      assert scoped[j] in scoped;
    }
    if k < |events| && Matches(events[k], ctrl.scope) && (Holds(events, k, ctrl.condition) == Is(true)) == met {
      var j :| 0 <= j < |scoped| && scoped[j] == k;
      Picked(scoped, vs, met, 0, j);
    }
  }

  // ---- one control ---------------------------------------------------------

  /** A control raises an error exactly if its condition does on some event in scope. */
  lemma {:induction false} RaisesIff(events: seq<Value>, ctrl: Control)
    ensures Judge(events, ctrl).None?
       <==> exists k :: 0 <= k < |events| && Matches(events[k], ctrl.scope) && Holds(events, k, ctrl.condition) == Raise
  {
    var scoped := Scoped(events, ctrl.scope, 0);
    var vs := Verdicts(events, scoped, ctrl.condition);
    if !Decided(vs) {
      var i :| 0 <= i < |vs| && !vs[i].Is?;
      assert scoped[i] in scoped;
    }
    if k :| 0 <= k < |events| && Matches(events[k], ctrl.scope) && Holds(events, k, ctrl.condition) == Raise {
      var j :| 0 <= j < |scoped| && scoped[j] == k;
      assert vs[j] == Raise;
    }
  }

  /** The positions that the two lists of a control's own result stand for. */
  lemma {:induction false} CitedPositions(events: seq<Value>, ctrl: Control) returns (passed: seq<nat>, failed: seq<nat>)
    requires Judge(events, ctrl).Some?
    ensures InLogOrder(passed) && forall k :: k in passed <==> Passes(events, ctrl, k)
    ensures InLogOrder(failed) && forall k :: k in failed <==> Fails(events, ctrl, k)
    ensures var scoped := Scoped(events, ctrl.scope, 0);
      var vs := Verdicts(events, scoped, ctrl.condition);
      && passed == Pick(scoped, vs, true, 0) && failed == Pick(scoped, vs, false, 0)
      && |passed| + |failed| == |scoped|
  {
    var scoped := Scoped(events, ctrl.scope, 0);
    var vs := Verdicts(events, scoped, ctrl.condition);
    passed, failed := Pick(scoped, vs, true, 0), Pick(scoped, vs, false, 0);
    ScopedInOrder(events, ctrl.scope, 0);
    PickInOrder(scoped, vs, true, 0);
    PickInOrder(scoped, vs, false, 0);
    PickSplits(scoped, vs, 0);
    RaisesIff(events, ctrl);
    forall k: nat ensures k in passed <==> Passes(events, ctrl, k) {
      PickedExactly(events, ctrl, true, k);
    }
    forall k: nat ensures k in failed <==> Fails(events, ctrl, k) {
      PickedExactly(events, ctrl, false, k);
    }
  }

  lemma {:induction false} CappedIds(events: seq<Value>, at: seq<nat>)
    requires Within(at, |events|)
    ensures FirstIds(Capped(Ids(events, at)), events, at)
  {
  }

  /**
   A control's own result: its evidence is the ids of the events that pass and
   its gaps those of the events that fail, each in log order and at most fifty;
   the counts count them all.
   */
  lemma {:induction false} JudgeMeans(events: seq<Value>, ctrl: Control) returns (passed: seq<nat>, failed: seq<nat>)
    requires Judge(events, ctrl).Some?
    ensures InLogOrder(passed) && forall k :: k in passed <==> Passes(events, ctrl, k)
    ensures InLogOrder(failed) && forall k :: k in failed <==> Fails(events, ctrl, k)
    ensures var r := Judge(events, ctrl).value;
      && FirstIds(r.evidenceEventIds, events, passed) && FirstIds(r.gapEventIds, events, failed)
      && r.satisfiedCount == |passed| && r.evaluatedCount == |passed| + |failed|
      && r.status == (if passed + failed == [] then ctrl.emptyScope else if failed == [] then Satisfied else NotSatisfied)
  {
    passed, failed := CitedPositions(events, ctrl);
    if Scoped(events, ctrl.scope, 0) != [] {
      CappedIds(events, passed);
      CappedIds(events, failed);
    }
  }

  // ---- all controls --------------------------------------------------------

  /** The event attests lost evidence. */
  predicate AttestsGap(events: seq<Value>, k: nat) {
    k < |events| && GetPath(events[k], ["attributes", "marker"]) == Str("evidence_gap")
  }

  /** It also has an id, by which it can be cited. */
  predicate IsMarker(events: seq<Value>, k: nat) {
    AttestsGap(events, k) && Truthy(GetPath(events[k], ["event_id"]))
  }

  /** Some control with this id asks for completeness. */
  predicate AsksCompleteness(controls: seq<Control>, id: string) {
    exists k :: 0 <= k < |controls| && controls[k].completenessSensitive && controls[k].id == id
  }

  /** A gap spoils the control. */
  ghost predicate Spoiled(controls: seq<Control>, events: seq<Value>, ctrl: Control) {
    (exists k: nat :: AttestsGap(events, k)) && AsksCompleteness(controls, ctrl.id)
  }

  lemma {:induction false} GapIff(events: seq<Value>, k: nat)
    requires k < |events|
    ensures IsGap(events[k]) <==> AttestsGap(events, k)
  {
  }

  lemma {:induction false} GapsIff(events: seq<Value>)
    ensures Gaps(events, 0) != [] <==> exists k: nat :: AttestsGap(events, k)
  {
    var gaps := Gaps(events, 0);
    if gaps != [] {
      assert gaps[0] in gaps;
      GapIff(events, gaps[0]);
    }
    if k: nat :| AttestsGap(events, k) {
      GapIff(events, k);
      assert k in gaps;
    }
  }

  /** Those positions, from the `i`-th on, whose event has an id that is true. */
  function Named(events: seq<Value>, at: seq<nat>, i: nat): (r: seq<nat>)
    requires Within(at, |events|) && i <= |at|
    ensures Within(r, |events|)
    ensures forall k :: k in r <==> k in at[i..] && Truthy(GetPath(events[k], ["event_id"]))
    decreases |at| - i
  {
    if i == |at| then []
    else
      assert at[i..] == [at[i]] + at[i + 1..];
      (if Truthy(GetPath(events[at[i]], ["event_id"])) then [at[i]] else []) + Named(events, at, i + 1)
  }

  lemma {:induction false} NamedInOrder(events: seq<Value>, at: seq<nat>, i: nat)
    requires Within(at, |events|) && i <= |at| && InLogOrder(at)
    ensures InLogOrder(Named(events, at, i))
    decreases |at| - i
  {
    if i < |at| {
      NamedInOrder(events, at, i + 1);
      var rest := Named(events, at, i + 1);
      forall j | 0 <= j < |rest| ensures at[i] < rest[j] {
        assert rest[j] in rest;
        var k :| 0 <= k < |at[i + 1..]| && at[i + 1..][k] == rest[j];
      }
    }
  }

  lemma {:induction false} IdsFirst(events: seq<Value>, k: nat, more: seq<nat>)
    requires k < |events| && Within(more, |events|)
    ensures Ids(events, [k] + more) == [GetPath(events[k], ["event_id"])] + Ids(events, more)
  {
  }

  lemma {:induction false} TruthyFirst(ids: seq<Value>, i: nat)
    requires i < |ids|
    ensures TruthyOnly(ids[i..]) == (if Truthy(ids[i]) then [ids[i]] else []) + TruthyOnly(ids[i + 1..])
  {
    assert ids[i..][0] == ids[i] && ids[i..][1..] == ids[i + 1..];
  }

  lemma {:induction false} NamedIds(events: seq<Value>, at: seq<nat>, ids: seq<Value>, i: nat)
    requires Within(at, |events|) && i <= |at| && ids == Ids(events, at)
    ensures TruthyOnly(ids[i..]) == Ids(events, Named(events, at, i))
    decreases |at| - i
  {
    if i < |at| {
      NamedIds(events, at, ids, i + 1);
      TruthyFirst(ids, i);
      IdsFirst(events, at[i], Named(events, at, i + 1));
    }
  }

  /** The positions that the ids of attested gaps stand for. */
  lemma {:induction false} MarkerPositions(events: seq<Value>) returns (markers: seq<nat>)
    ensures InLogOrder(markers)
    ensures forall k :: k in markers <==> IsMarker(events, k)
    ensures FirstIds(GapIds(events), events, markers)
  {
    var gaps := Gaps(events, 0);
    markers := Named(events, gaps, 0);
    assert gaps[0..] == gaps && Ids(events, gaps)[0..] == Ids(events, gaps);
    GapsInOrder(events, 0);
    NamedInOrder(events, gaps, 0);
    NamedIds(events, gaps, Ids(events, gaps), 0);
    CappedIds(events, markers);
    forall k: nat ensures k in markers <==> IsMarker(events, k) {
      if k < |events| {
        GapIff(events, k);
      }
    }
  }

  /**
   What a control yields in the end. The evidence is the ids of the events that
   pass. The gaps are the ids of those that fail, or, where an attested gap
   turns the status, of the attested gaps.
   */
  lemma {:induction false} FinalMeans(controls: seq<Control>, events: seq<Value>, ctrl: Control)
    returns (passed: seq<nat>, failed: seq<nat>, markers: seq<nat>)
    requires Final(controls, events, ctrl).Some?
    ensures InLogOrder(passed) && forall k :: k in passed <==> Passes(events, ctrl, k)
    ensures InLogOrder(failed) && forall k :: k in failed <==> Fails(events, ctrl, k)
    ensures InLogOrder(markers)
    ensures forall k :: k in markers <==> IsMarker(events, k)
    ensures var r := Final(controls, events, ctrl).value;
      var own := if passed + failed == [] then ctrl.emptyScope else if failed == [] then Satisfied else NotSatisfied;
      var turned := own != NotSatisfied && Spoiled(controls, events, ctrl);
      && r.controlId == ctrl.id
      && FirstIds(r.evidenceEventIds, events, passed)
      && FirstIds(r.gapEventIds, events, if turned then markers else failed)
      && r.satisfiedCount == |passed| && r.evaluatedCount == |passed| + |failed|
      && r.status == if turned then NotSatisfied else own
  {
    passed, failed := JudgeMeans(events, ctrl);
    markers := MarkerPositions(events);
    GapsIff(events);
    var judged := Judge(events, ctrl).value;
    OverriddenMeans(controls, events, ctrl, judged);
    if judged.status != NotSatisfied && Spoiled(controls, events, ctrl) {
      assert judged.gapEventIds == [];
    }
  }

  lemma {:induction false} OverriddenMeans(controls: seq<Control>, events: seq<Value>, ctrl: Control, r: ControlResult)
    requires r.controlId == ctrl.id
    ensures var o, turned := Overridden(controls, events, r), r.status != NotSatisfied && Spoiled(controls, events, ctrl);
      && (turned ==> o.status == NotSatisfied && (r.gapEventIds == [] ==> o.gapEventIds == GapIds(events)))
      && (!turned ==> o.status == r.status && o.gapEventIds == r.gapEventIds)
      && o.controlId == r.controlId && o.evidenceEventIds == r.evidenceEventIds
      && o.satisfiedCount == r.satisfiedCount && o.evaluatedCount == r.evaluatedCount
  {
    GapsIff(events);
    assert [] + GapIds(events) == GapIds(events);
  }

  /** Evaluation raises an error exactly if some control's condition does on an event in its scope. */
  lemma {:induction false} EvaluationRaisesIff(controls: seq<Control>, events: seq<Value>)
    ensures Results(controls, events, |controls|).None?
       <==> exists n, k :: 0 <= n < |controls| && 0 <= k < |events| && Matches(events[k], controls[n].scope)
                           && Holds(events, k, controls[n].condition) == Raise
  {
    forall n | 0 <= n < |controls|
      ensures Final(controls, events, controls[n]).None?
         <==> exists k :: 0 <= k < |events| && Matches(events[k], controls[n].scope)
                          && Holds(events, k, controls[n].condition) == Raise
    {
      RaisesIff(events, controls[n]);
    }
  }
}
