/**
 Evaluating controls: for each, the events in scope, which of them pass, and
 one of three statuses; then attested gaps override completeness-sensitive
 controls. The engine finds violators by comparing values with the passed
 events; that is shown to find exactly the failing ones.
 */
module Evaluate {
  import opened Prelude
  import opened Json
  import opened PyValue
  import opened Crosswalk

  const MAX_IDS: nat := 50

  function Capped(ids: seq<Value>): seq<Value> {
    if |ids| <= MAX_IDS then ids else ids[..MAX_IDS]
  }

  // ---- specification -------------------------------------------------------

  predicate Within(scoped: seq<nat>, n: nat) {
    forall i :: 0 <= i < |scoped| ==> scoped[i] < n
  }

  /** Positions, from `i` on, of the events in scope. */
  function Scoped(events: seq<Value>, f: Filter, i: nat): (r: seq<nat>)
    requires i <= |events|
    ensures Within(r, |events|)
    ensures forall k :: k in r ==> i <= k < |events| && Matches(events[k], f)
    ensures forall k :: i <= k < |events| && Matches(events[k], f) ==> k in r
    decreases |events| - i
  {
    if i == |events| then []
    else (if Matches(events[i], f) then [i] else []) + Scoped(events, f, i + 1)
  }

  /** The verdict on each event in scope. */
  function Verdicts(events: seq<Value>, scoped: seq<nat>, c: Condition): (vs: seq<Truth>)
    requires Within(scoped, |events|)
    ensures |vs| == |scoped|
  {
    seq(|scoped|, i requires 0 <= i < |scoped| => Holds(events, scoped[i], c))
  }

  predicate Decided(vs: seq<Truth>) {
    forall i :: 0 <= i < |vs| ==> vs[i].Is?
  }

  /** Those positions, from the `i`-th on, whose verdict is (or is not) that the condition holds. */
  function Pick(scoped: seq<nat>, vs: seq<Truth>, met: bool, i: nat): (r: seq<nat>)
    requires |vs| == |scoped| && i <= |scoped|
    ensures forall n :: Within(scoped, n) ==> Within(r, n)
    decreases |scoped| - i
  {
    if i == |scoped| then []
    else (if (vs[i] == Is(true)) == met then [scoped[i]] else []) + Pick(scoped, vs, met, i + 1)
  }

  lemma {:induction false} Picked(scoped: seq<nat>, vs: seq<Truth>, met: bool, i: nat, j: nat)
    requires |vs| == |scoped| && i <= j < |scoped| && (vs[j] == Is(true)) == met
    ensures scoped[j] in Pick(scoped, vs, met, i)
    decreases j - i
  {
    if i < j {
      Picked(scoped, vs, met, i + 1, j);
    }
  }

  lemma {:induction false} PickedAt(scoped: seq<nat>, vs: seq<Truth>, met: bool, i: nat, k: nat) returns (j: nat)
    requires |vs| == |scoped| && i <= |scoped| && k in Pick(scoped, vs, met, i)
    ensures i <= j < |scoped| && scoped[j] == k && (vs[j] == Is(true)) == met
    decreases |scoped| - i
  {
    if (vs[i] == Is(true)) == met && scoped[i] == k {
      j := i;
    } else {
      j := PickedAt(scoped, vs, met, i + 1, k);
    }
  }

  function Ids(events: seq<Value>, at: seq<nat>): seq<Value>
    requires Within(at, |events|)
  {
    seq(|at|, i requires 0 <= i < |at| => GetPath(events[at[i]], ["event_id"]))
  }

  /** What a control yields by itself; `None` where its condition raises an error. */
  function Judge(events: seq<Value>, ctrl: Control): Option<ControlResult> {
    var scoped := Scoped(events, ctrl.scope, 0);
    if scoped == [] then Some(ControlResult(ctrl.id, ctrl.emptyScope, 0, 0, [], []))
    else
      var vs := Verdicts(events, scoped, ctrl.condition);
      if !Decided(vs) then None
      else
        var passing, failing := Pick(scoped, vs, true, 0), Pick(scoped, vs, false, 0);
        Some(ControlResult(
          ctrl.id, if failing == [] then Satisfied else NotSatisfied, |scoped|, |passing|,
          Capped(Ids(events, passing)), Capped(Ids(events, failing))))
  }

  predicate IsGap(ev: Value) {
    PyEq(GetPath(ev, ["attributes", "marker"]), Str("evidence_gap"))
  }

  /** Positions, from `i` on, of the attested evidence gaps. */
  function Gaps(events: seq<Value>, i: nat): (r: seq<nat>)
    requires i <= |events|
    ensures Within(r, |events|)
    ensures forall k :: k in r <==> i <= k < |events| && IsGap(events[k])
    decreases |events| - i
  {
    if i == |events| then [] else (if IsGap(events[i]) then [i] else []) + Gaps(events, i + 1)
  }

  function TruthyOnly(ids: seq<Value>): seq<Value> {
    if ids == [] then [] else (if Truthy(ids[0]) then [ids[0]] else []) + TruthyOnly(ids[1..])
  }

  function GapIds(events: seq<Value>): seq<Value> {
    Capped(TruthyOnly(Ids(events, Gaps(events, 0))))
  }

  /** The id names a completeness-sensitive control. */
  predicate Sensitive(controls: seq<Control>, id: string) {
    exists k :: 0 <= k < |controls| && controls[k].completenessSensitive && controls[k].id == id
  }

  function Overridden(controls: seq<Control>, events: seq<Value>, r: ControlResult): ControlResult {
    if Gaps(events, 0) != [] && Sensitive(controls, r.controlId) && r.status != NotSatisfied then
      r.(status := NotSatisfied, gapEventIds := Capped(r.gapEventIds + GapIds(events)))
    else r
  }

  /** What a control yields in the end. */
  function Final(controls: seq<Control>, events: seq<Value>, ctrl: Control): Option<ControlResult> {
    match Judge(events, ctrl)
    case None => None
    case Some(r) => Some(Overridden(controls, events, r))
  }

  /** The first `n` values of `f`, if all are defined. */
  function Collect<T>(f: nat -> Option<T>, n: nat): (rs: Option<seq<T>>)
    ensures rs.Some? ==> |rs.value| == n && forall k :: 0 <= k < n ==> f(k) == Some(rs.value[k])
    ensures rs.None? ==> exists k :: 0 <= k < n && f(k).None?
  {
    if n == 0 then Some([])
    else
      var before, last := Collect(f, n - 1), f(n - 1);
      if before.None? || last.None? then None else Some(before.value + [last.value])
  }

  /** What evaluation yields, control by control; `None` where it raises an error. */
  function Results(controls: seq<Control>, events: seq<Value>, n: nat): (rs: Option<seq<ControlResult>>)
    requires n <= |controls|
    ensures rs.Some? ==> |rs.value| == n
    ensures rs.Some? ==> forall k :: 0 <= k < n ==> Final(controls, events, controls[k]) == Some(rs.value[k])
    ensures rs.None? ==> exists k :: 0 <= k < n && Final(controls, events, controls[k]).None?
  {
    var f := (k: nat) => if k < |controls| then Final(controls, events, controls[k]) else None;
    var rs := Collect(f, n);
    assert rs.Some? ==> forall k :: 0 <= k < n ==> f(k) == Some(rs.value[k]);
    rs
  }

  // ---- what the results mean -----------------------------------------------

  /** Passing and failing events make up the scope. */
  lemma {:induction false} PickSplits(scoped: seq<nat>, vs: seq<Truth>, i: nat)
    requires |vs| == |scoped| && i <= |scoped|
    ensures |Pick(scoped, vs, true, i)| + |Pick(scoped, vs, false, i)| == |scoped| - i
    decreases |scoped| - i
  {
    if i < |scoped| {
      PickSplits(scoped, vs, i + 1);
    }
  }

  /** When an event in scope is judged to hold, whatever its position. */
  predicate AllHoldInScope(events: seq<Value>, ctrl: Control) {
    forall k :: 0 <= k < |events| && Matches(events[k], ctrl.scope) ==>
      Holds(events, k, ctrl.condition) == Is(true)
  }

  predicate EmptyScope(events: seq<Value>, ctrl: Control) {
    forall k :: 0 <= k < |events| ==> !Matches(events[k], ctrl.scope)
  }

  predicate HasGap(events: seq<Value>) {
    exists k :: 0 <= k < |events| && IsGap(events[k])
  }

  /** The status of a control, said without reference to how it is computed. */
  function ExpectedStatus(controls: seq<Control>, events: seq<Value>, ctrl: Control): Status {
    if HasGap(events) && Sensitive(controls, ctrl.id) then NotSatisfied
    else if EmptyScope(events, ctrl) then ctrl.emptyScope
    else if AllHoldInScope(events, ctrl) then Satisfied
    else NotSatisfied
  }

  lemma JudgeStatus(events: seq<Value>, ctrl: Control)
    requires Judge(events, ctrl).Some?
    ensures Judge(events, ctrl).value.controlId == ctrl.id
    ensures Judge(events, ctrl).value.status
         == if EmptyScope(events, ctrl) then ctrl.emptyScope
            else if AllHoldInScope(events, ctrl) then Satisfied
            else NotSatisfied
  {
    var scoped := Scoped(events, ctrl.scope, 0);
    if scoped != [] {
      assert scoped[0] in scoped;
      var vs := Verdicts(events, scoped, ctrl.condition);
      var failing := Pick(scoped, vs, false, 0);
      if failing != [] {
        var j := PickedAt(scoped, vs, false, 0, failing[0]);
        assert scoped[j] in scoped;
      } else {
        forall k | k in scoped ensures Holds(events, k, ctrl.condition) == Is(true) {
          var j :| 0 <= j < |scoped| && scoped[j] == k;
          if vs[j] != Is(true) {
            Picked(scoped, vs, false, 0, j);
          }
        }
      }
    }
  }

  /** Every status follows from the events alone; a gap forces every sensitive control. */
  lemma StatusesAsExpected(controls: seq<Control>, events: seq<Value>, k: nat)
    requires k < |controls| && Results(controls, events, |controls|).Some?
    ensures Results(controls, events, |controls|).value[k].status == ExpectedStatus(controls, events, controls[k])
    ensures Results(controls, events, |controls|).value[k].controlId == controls[k].id
    ensures HasGap(events) && controls[k].completenessSensitive ==>
      Results(controls, events, |controls|).value[k].status == NotSatisfied
  {
    JudgeStatus(events, controls[k]);
    var gaps := Gaps(events, 0);
    if gaps != [] {
      assert gaps[0] in gaps;
    }
  }

  /** The satisfied count and the failing events add up to the evaluated count. */
  lemma CountsAddUp(controls: seq<Control>, events: seq<Value>, k: nat)
    requires k < |controls| && Results(controls, events, |controls|).Some?
    ensures var r, scoped := Results(controls, events, |controls|).value[k], Scoped(events, controls[k].scope, 0);
      && r.evaluatedCount == |scoped|
      && r.satisfiedCount + |Pick(scoped, Verdicts(events, scoped, controls[k].condition), false, 0)|
         == r.evaluatedCount
  {
    var scoped := Scoped(events, controls[k].scope, 0);
    PickSplits(scoped, Verdicts(events, scoped, controls[k].condition), 0);
  }

  // ---- the engine ----------------------------------------------------------

  /** `e in passed`: the same event, or an equal one. */
  predicate AmongPassed(events: seq<Value>, passed: seq<nat>, e: nat)
    requires Within(passed, |events|) && e < |events|
  {
    exists j :: 0 <= j < |passed| && (passed[j] == e || PyEq(events[passed[j]], events[e]))
  }

  /** Equality with a passed event means having passed. */
  lemma AmongPassedMeansPassed(events: seq<Value>, scoped: seq<nat>, c: Condition, i: nat)
    requires Within(scoped, |events|) && i < |scoped|
    ensures var vs := Verdicts(events, scoped, c);
      AmongPassed(events, Pick(scoped, vs, true, 0), scoped[i]) <==> vs[i] == Is(true)
  {
    var vs, e := Verdicts(events, scoped, c), scoped[i];
    var passed := Pick(scoped, vs, true, 0);
    if vs[i] == Is(true) {
      Picked(scoped, vs, true, 0, i);
    }
    forall j | 0 <= j < |passed| && (passed[j] == e || PyEq(events[passed[j]], events[e])) ensures vs[i] == Is(true) {
      assert passed[j] in passed;
      var k := PickedAt(scoped, vs, true, 0, passed[j]);
      if passed[j] != e {
        EqHolds(events, passed[j], e, c);
      }
    }
  }

  /** The events in scope, from the `i`-th on, that are not among the passed ones. */
  function Violators(events: seq<Value>, scoped: seq<nat>, passed: seq<nat>, i: nat): seq<nat>
    requires Within(scoped, |events|) && Within(passed, |events|) && i <= |scoped|
    decreases |scoped| - i
  {
    if i == |scoped| then []
    else (if AmongPassed(events, passed, scoped[i]) then [] else [scoped[i]]) + Violators(events, scoped, passed, i + 1)
  }

  /** Violators found by value comparison are exactly the events that did not pass. */
  lemma {:induction false} ViolatorsFail(events: seq<Value>, scoped: seq<nat>, c: Condition, i: nat)
    requires Within(scoped, |events|) && i <= |scoped|
    ensures var vs := Verdicts(events, scoped, c);
      Violators(events, scoped, Pick(scoped, vs, true, 0), i) == Pick(scoped, vs, false, i)
    decreases |scoped| - i
  {
    if i < |scoped| {
      AmongPassedMeansPassed(events, scoped, c, i);
      ViolatorsFail(events, scoped, c, i + 1);
    }
  }

  /** One round of the engine's loop. */
  method EvaluateControl(events: seq<Value>, ctrl: Control) returns (r: Option<ControlResult>)
    ensures r == Judge(events, ctrl)
  {
    var scoped := Scoped(events, ctrl.scope, 0);
    if scoped == [] {
      return Some(ControlResult(ctrl.id, ctrl.emptyScope, 0, 0, [], []));
    }
    var vs := Verdicts(events, scoped, ctrl.condition);
    if !Decided(vs) {
      return None;
    }
    var passed := Pick(scoped, vs, true, 0);
    var violators := Violators(events, scoped, passed, 0);
    ViolatorsFail(events, scoped, ctrl.condition, 0);
    var status := if violators != [] then NotSatisfied else Satisfied;
    r := Some(ControlResult(ctrl.id, status, |scoped|, |passed|,
                            Capped(Ids(events, passed)), Capped(Ids(events, violators))));
  }

  /** Evaluate every control, then overwrite the statuses that an attested gap spoils. */
  method EvaluateAll(controls: seq<Control>, events: seq<Value>) returns (r: Option<seq<ControlResult>>)
    ensures r == Results(controls, events, |controls|)
  {
    var results: seq<ControlResult> := [];
    for n := 0 to |controls|
      invariant AllJudged(controls, events, results, n)
    {
      var one := EvaluateControl(events, controls[n]);
      if one.None? {
        ResultsRaise(controls, events, n);
        return None;
      }
      results := results + [one.value];
    }
    ghost var judged := results;
    if Gaps(events, 0) != [] {
      results := Override(controls, events, results);
    }
    OverriddenAre(controls, events, judged, results);
    r := Some(results);
  }

  /** The results so far are the controls' own. */
  ghost predicate AllJudged(controls: seq<Control>, events: seq<Value>, results: seq<ControlResult>, n: nat) {
    n <= |controls| && |results| == n && forall k :: 0 <= k < n ==> Judge(events, controls[k]) == Some(results[k])
  }

  lemma {:induction false} OverriddenAre(controls: seq<Control>, events: seq<Value>, judged: seq<ControlResult>,
                                         results: seq<ControlResult>)
    requires AllJudged(controls, events, judged, |controls|) && |results| == |judged|
    requires if Gaps(events, 0) == [] then results == judged
             else forall k :: 0 <= k < |judged| ==> results[k] == Overridden(controls, events, judged[k])
    ensures Results(controls, events, |controls|) == Some(results)
  {
    forall k | 0 <= k < |controls| ensures Final(controls, events, controls[k]) == Some(results[k]) {
      assert Judge(events, controls[k]) == Some(judged[k]);
    }
    ResultsAre(controls, events, results);
  }

  lemma {:induction false} ResultsRaise(controls: seq<Control>, events: seq<Value>, k: nat)
    requires k < |controls| && Judge(events, controls[k]).None?
    ensures Results(controls, events, |controls|).None?
  {
    assert Final(controls, events, controls[k]).None?;
  }

  lemma {:induction false} ResultsAre(controls: seq<Control>, events: seq<Value>, results: seq<ControlResult>)
    requires |results| == |controls|
    requires forall k :: 0 <= k < |controls| ==> Final(controls, events, controls[k]) == Some(results[k])
    ensures Results(controls, events, |controls|) == Some(results)
  {
    var rs := Results(controls, events, |controls|);
    assert rs.Some?;
    assert rs.value == results;
  }

  /** The overwriting loop. */
  method Override(controls: seq<Control>, events: seq<Value>, judged: seq<ControlResult>)
    returns (results: seq<ControlResult>)
    requires Gaps(events, 0) != []
    ensures |results| == |judged|
    ensures forall k :: 0 <= k < |judged| ==> results[k] == Overridden(controls, events, judged[k])
  {
    results := judged;
    var ids := GapIds(events);
    for n := 0 to |results|
      invariant |results| == |judged|
      invariant forall k :: 0 <= k < n ==> results[k] == Overridden(controls, events, judged[k])
      invariant forall k :: n <= k < |judged| ==> results[k] == judged[k]
    {
      var one := results[n];
      if Sensitive(controls, one.controlId) && one.status != NotSatisfied {
        results := results[n := one.(status := NotSatisfied, gapEventIds := Capped(one.gapEventIds + ids))];
      }
    }
  }
}
