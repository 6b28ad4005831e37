/**
 Deep verification: evaluate the pinned crosswalk again over the disclosed
 events, and compare the statuses with the reported ones.
 */
module DeepVerify {
  import opened Prelude
  import opened Json
  import opened Crosswalk
  import opened Evaluate
  import opened Signing
  import opened Witness
  import opened Ledger
  import opened Report
  import opened ReportBuild

  // ---- specification -------------------------------------------------------

  /** The status of the last of the first `n` results for a control id. */
  function LastStatus(rs: seq<ControlResult>, id: string, n: nat): Option<Status>
    requires n <= |rs|
  {
    if n == 0 then None
    else if rs[n - 1].controlId == id then Some(rs[n - 1].status)
    else LastStatus(rs, id, n - 1)
  }

  /** Every reported status is the derived one. */
  predicate VerdictsMatch(lines: seq<Line>, rs: seq<ControlResult>) {
    forall i :: 0 <= i < |lines| ==> LastStatus(rs, lines[i].controlId, |rs|) == Some(lines[i].status)
  }

  function EventsOf(items: seq<Item>): (es: seq<Event>)
    ensures |es| == |items|
    ensures forall i :: 0 <= i < |es| ==> es[i] == items[i].event
  {
    seq(|items|, i requires 0 <= i < |items| => items[i].event)
  }

  /** What the crosswalk in hand yields on the disclosed events. */
  function Derived(c: Unsigned, controls: seq<Control>): Option<seq<ControlResult>> {
    Results(controls, Dicts(EventsOf(c.items)), |controls|)
  }

  /** The report names the crosswalk in hand. */
  predicate Pinned(env: Env, c: Unsigned, controls: seq<Control>) {
    c.crosswalkHash != "" && c.crosswalkHash == env.crosswalkHash(controls)
  }

  // ---- the verifier --------------------------------------------------------

  /** Deep verification; `None` where evaluation raises an error. */
  method VerifyDeep(env: Env, c: Unsigned, controls: seq<Control>) returns (ok: Option<bool>)
    ensures !Pinned(env, c, controls) ==> ok == Some(false)
    ensures Pinned(env, c, controls) && Derived(c, controls).None? ==> ok.None?
    ensures Pinned(env, c, controls) && Derived(c, controls).Some? ==>
      ok == Some(VerdictsMatch(c.lines, Derived(c, controls).value))
  {
    if c.crosswalkHash == "" {
      return Some(false);
    }
    if env.crosswalkHash(controls) != c.crosswalkHash {
      return Some(false);
    }
    var rs := EvaluateAll(controls, Dicts(EventsOf(c.items)));
    if rs.None? {
      return None;
    }
    var recomputed := StatusById(rs.value);
    var matching := CompareLines(c.lines, rs.value, recomputed);
    ok := Some(matching);
  }

  /** The dictionary from control ids to statuses; a later result replaces an earlier one. */
  ghost predicate IsIndex(m: map<string, Status>, rs: seq<ControlResult>, n: nat) {
    n <= |rs| && forall id: string :: LastStatus(rs, id, n) == if id in m then Some(m[id]) else None
  }

  method StatusById(rs: seq<ControlResult>) returns (m: map<string, Status>)
    ensures IsIndex(m, rs, |rs|)
  {
    m := map[];
    for n := 0 to |rs|
      invariant IsIndex(m, rs, n)
    {
      m := m[rs[n].controlId := rs[n].status];
    }
  }

  method CompareLines(lines: seq<Line>, rs: seq<ControlResult>, m: map<string, Status>) returns (ok: bool)
    requires IsIndex(m, rs, |rs|)
    ensures ok == VerdictsMatch(lines, rs)
  {
    ok := true;
    for i := 0 to |lines|
      invariant ok == VerdictsMatch(lines[..i], rs)
    {
      assert lines[..i + 1] == lines[..i] + [lines[i]];
      var id := lines[i].controlId;
      if id !in m || m[id] != lines[i].status {
        ok := false;
      }
      assert LastStatus(rs, id, |rs|) == if id in m then Some(m[id]) else None;
      ExtendMatch(lines, rs, i);
    }
    assert lines[..|lines|] == lines;
  }

  lemma {:induction false} ExtendMatch(lines: seq<Line>, rs: seq<ControlResult>, i: nat)
    requires i < |lines|
    ensures VerdictsMatch(lines[..i + 1], rs)
       <==> VerdictsMatch(lines[..i], rs) && LastStatus(rs, lines[i].controlId, |rs|) == Some(lines[i].status)
  {
    var a, b := lines[..i], lines[..i + 1];
    assert b[i] == lines[i] && forall k :: 0 <= k < i ==> a[k] == b[k];
  }

  // ---- what passing means --------------------------------------------------

  /** The last of the first `n` results for an id is the result at some position. */
  lemma {:induction false} LastStatusAt(rs: seq<ControlResult>, id: string, n: nat) returns (k: nat)
    requires n <= |rs| && LastStatus(rs, id, n).Some?
    ensures k < n && rs[k].controlId == id && LastStatus(rs, id, n) == Some(rs[k].status)
    ensures forall j :: k < j < n ==> rs[j].controlId != id
  {
    if rs[n - 1].controlId == id {
      k := n - 1;
    } else {
      k := LastStatusAt(rs, id, n - 1);
    }
  }

  lemma {:induction false} LastStatusFound(rs: seq<ControlResult>, k: nat, n: nat)
    requires k < n <= |rs|
    ensures LastStatus(rs, rs[k].controlId, n).Some?
    decreases n
  {
    if rs[n - 1].controlId != rs[k].controlId {
      LastStatusFound(rs, k, n - 1);
    }
  }

  predicate DistinctIds(controls: seq<Control>) {
    forall i, j :: 0 <= i < j < |controls| ==> controls[i].id != controls[j].id
  }

  /** Results for the same control id have the same status. */
  predicate SameIdsAgree(rs: seq<ControlResult>) {
    forall i, j :: 0 <= i < |rs| && 0 <= j < |rs| && rs[i].controlId == rs[j].controlId ==> rs[i].status == rs[j].status
  }

  /** Results reported over the very events that they were derived from. */
  lemma {:induction false} OwnVerdictsMatch(rs: seq<ControlResult>)
    ensures VerdictsMatch(Lines(rs), rs) <==> SameIdsAgree(rs)
  {
    var lines := Lines(rs);
    forall i | 0 <= i < |rs| && SameIdsAgree(rs)
      ensures LastStatus(rs, lines[i].controlId, |rs|) == Some(lines[i].status)
    {
      LastStatusFound(rs, i, |rs|);
      var k := LastStatusAt(rs, rs[i].controlId, |rs|);
    }
    if VerdictsMatch(lines, rs) {
      forall i, j | 0 <= i < |rs| && 0 <= j < |rs| && rs[i].controlId == rs[j].controlId
        ensures rs[i].status == rs[j].status
      {
        assert lines[i].status == rs[i].status && lines[j].status == rs[j].status;
      }
    }
  }

  /** A passing line states what the disclosed events yield for a control with that id. */
  lemma {:induction false} PassingMeansExpected(controls: seq<Control>, events: seq<Value>, lines: seq<Line>, i: nat)
    returns (k: nat)
    requires Results(controls, events, |controls|).Some?
    requires VerdictsMatch(lines, Results(controls, events, |controls|).value) && i < |lines|
    ensures k < |controls| && controls[k].id == lines[i].controlId
    ensures lines[i].status == ExpectedStatus(controls, events, controls[k])
  {
    var rs := Results(controls, events, |controls|).value;
    k := LastStatusAt(rs, lines[i].controlId, |rs|);
    StatusesAsExpected(controls, events, k);
  }

  /** The last of the first `n` controls that has the id of control `k`. */
  function LastSame(controls: seq<Control>, k: nat, n: nat): (j: nat)
    requires k < n <= |controls|
    ensures k <= j < n && controls[j].id == controls[k].id
    ensures forall i :: j < i < n ==> controls[i].id != controls[k].id
    decreases n
  {
    if controls[n - 1].id == controls[k].id then n - 1 else LastSame(controls, k, n - 1)
  }

  /** Every control's status over some events is, over others, that of the last control with its id. */
  predicate Unchanged(controls: seq<Control>, before: seq<Value>, after: seq<Value>) {
    forall k :: 0 <= k < |controls| ==>
      ExpectedStatus(controls, before, controls[k])
      == ExpectedStatus(controls, after, controls[LastSame(controls, k, |controls|)])
  }

  lemma {:induction false} LastStatusOf(controls: seq<Control>, events: seq<Value>, k: nat)
    requires k < |controls| && Results(controls, events, |controls|).Some?
    ensures var rs := Results(controls, events, |controls|).value;
      LastStatus(rs, controls[k].id, |rs|)
      == Some(ExpectedStatus(controls, events, controls[LastSame(controls, k, |controls|)]))
  {
    var rs, last := Results(controls, events, |controls|).value, LastSame(controls, k, |controls|);
    forall j | 0 <= j < |controls|
      ensures rs[j].controlId == controls[j].id && rs[j].status == ExpectedStatus(controls, events, controls[j])
    {
      StatusesAsExpected(controls, events, j);
    }
    LastStatusFound(rs, k, |rs|);
    var j := LastStatusAt(rs, rs[k].controlId, |rs|);
    assert j == last;
  }

  /** Verdicts derived from some events and checked against others match exactly if no status changed in between. */
  lemma {:induction false} MatchIffUnchanged(controls: seq<Control>, before: seq<Value>, after: seq<Value>)
    requires Results(controls, before, |controls|).Some? && Results(controls, after, |controls|).Some?
    ensures VerdictsMatch(Lines(Results(controls, before, |controls|).value), Results(controls, after, |controls|).value)
       <==> Unchanged(controls, before, after)
  {
    var rs0, rs1 := Results(controls, before, |controls|).value, Results(controls, after, |controls|).value;
    var lines := Lines(rs0);
    forall k | 0 <= k < |controls|
      ensures LastStatus(rs1, lines[k].controlId, |rs1|) == Some(lines[k].status)
         <==> ExpectedStatus(controls, before, controls[k])
              == ExpectedStatus(controls, after, controls[LastSame(controls, k, |controls|)])
    {
      StatusesAsExpected(controls, before, k);
      LastStatusOf(controls, after, k);
    }
  }

  /** With distinct ids each control is compared with itself. */
  lemma {:induction false} UnchangedIfDistinct(controls: seq<Control>, before: seq<Value>, after: seq<Value>)
    requires DistinctIds(controls)
    ensures Unchanged(controls, before, after) <==> forall k :: 0 <= k < |controls| ==>
      ExpectedStatus(controls, before, controls[k]) == ExpectedStatus(controls, after, controls[k])
  {
    forall k | 0 <= k < |controls| ensures LastSame(controls, k, |controls|) == k {
      assert controls[LastSame(controls, k, |controls|)].id == controls[k].id;
    }
  }

  // ---- evaluate, build, verify ---------------------------------------------

  /**
   Evaluate the ledger's events and build a report on the outcome while others
   commit, over a head of its own or one that the caller supplies; `None` where
   evaluation raises an error. Over a head of its own the report always passes
   shallow verification, over another exactly if that covers the cited
   evidence. If the disclosed events can be evaluated, it passes the deep one
   exactly if no status changed from the evaluated events to the disclosed ones.
   */
  method EvaluateAndBuild(env: Env, ledger: EvidenceLedger, key: Key, controls: seq<Control>,
                          given: Option<Checkpoint>, sinceEvaluation: seq<Value>, growth: nat -> seq<Value>,
                          now: string)
    returns (r: Option<SignedReport>)
    requires ledger.Valid() && Coherent(env) && env.hs == ledger.hs && Correct(env.sc)
    requires given.Some? ==>
      HeadOf(env.hs, given.value, ledger.leaves) && Verified(env.sc, given.value, env.sc.publicKey(key))
    modifies ledger, ledger.backend, ledger.tree
    ensures ledger.Valid() && old(ledger.Records()) <= ledger.Records()
    ensures r.None? <==> Results(controls, Dicts(old(ledger.Records())), |controls|).None?
    ensures r.Some? ==>
      && !Unserializable(env, r.value.content.items)
      && (Valid(env, r.value, None) <==> EvidencePresent(r.value.content))
      && (Valid(env, r.value, Some(env.sc.publicKey(key))) <==> EvidencePresent(r.value.content))
      && Discloses(r.value.content, ledger.Records())
      && DeepOutcome(env, r.value.content, controls, old(ledger.Records()))
    ensures r.Some? && given.None? ==>
      EvidencePresent(r.value.content) && |old(ledger.Records())| <= r.value.content.checkpoint.treeSize
    ensures r.Some? && given.Some? ==> r.value.content.checkpoint == given.value
    ensures r.Some? && given.None? && sinceEvaluation == [] ==>
      r.value.content.checkpoint.treeSize == |old(ledger.Records())|
    ensures r.Some? && r.value.content.checkpoint.treeSize == |old(ledger.Records())| ==>
      OwnOutcome(r.value.content, controls, old(ledger.Records()))
  {
    ghost var records := ledger.Records();
    var events := ledger.backend.IterRecords();
    var rs := EvaluateAll(controls, Dicts(events));
    if rs.None? {
      return None;
    }
    ResultsCiteEvents(controls, events, rs.value);
    var pin := env.crosswalkHash(controls);
    var built := BuildReport(env, ledger, key, rs.value, pin, given, sinceEvaluation, growth, now);
    OutcomeOf(env, built.content, controls, records, rs.value);
    if built.content.checkpoint.treeSize == |events| {
      SameEvents(built.content, records, ledger.Records());
      OutcomeOfOwn(built.content, controls, records, rs.value);
    }
    r := Some(built);
  }

  /**
   Deep verification of a report on `evaluated` records: it is pinned unless
   the hash is empty, and its verdicts match those derived from the disclosed
   events exactly if no status changed.
   */
  ghost predicate DeepOutcome(env: Env, c: Unsigned, controls: seq<Control>, evaluated: seq<Event>) {
    && (Pinned(env, c, controls) <==> env.crosswalkHash(controls) != "")
    && (Derived(c, controls).Some? ==>
        (VerdictsMatch(c.lines, Derived(c, controls).value)
         <==> Unchanged(controls, Dicts(evaluated), Dicts(EventsOf(c.items)))))
  }

  lemma {:induction false} OutcomeOf(env: Env, c: Unsigned, controls: seq<Control>, evaluated: seq<Event>,
                                     rs: seq<ControlResult>)
    requires Results(controls, Dicts(evaluated), |controls|) == Some(rs) && c.lines == Lines(rs)
    requires c.crosswalkHash == env.crosswalkHash(controls)
    ensures DeepOutcome(env, c, controls, evaluated)
  {
    if Derived(c, controls).Some? {
      MatchIffUnchanged(controls, Dicts(evaluated), Dicts(EventsOf(c.items)));
    }
  }

  lemma {:induction false} SameEvents(c: Unsigned, records: seq<Event>, later: seq<Event>)
    requires Discloses(c, later) && records <= later && c.checkpoint.treeSize == |records|
    ensures EventsOf(c.items) == records
  {
  }

  /**
   With a head over just the evaluated records the disclosed events are those,
   and the verdicts match exactly if controls which share an id agree.
   */
  ghost predicate OwnOutcome(c: Unsigned, controls: seq<Control>, evaluated: seq<Event>) {
    && EventsOf(c.items) == evaluated && Derived(c, controls).Some?
    && (VerdictsMatch(c.lines, Derived(c, controls).value) <==> SameIdsAgree(Derived(c, controls).value))
  }

  lemma {:induction false} OutcomeOfOwn(c: Unsigned, controls: seq<Control>, evaluated: seq<Event>,
                                        rs: seq<ControlResult>)
    requires Results(controls, Dicts(evaluated), |controls|) == Some(rs) && c.lines == Lines(rs)
    requires EventsOf(c.items) == evaluated
    ensures OwnOutcome(c, controls, evaluated)
  {
    OwnVerdictsMatch(rs);
  }

  /** With distinct ids, controls that share an id are one control. */
  lemma {:induction false} DistinctIdsAgree(controls: seq<Control>, events: seq<Value>)
    requires DistinctIds(controls) && Results(controls, events, |controls|).Some?
    ensures SameIdsAgree(Results(controls, events, |controls|).value)
  {
    var rs := Results(controls, events, |controls|).value;
    forall k | 0 <= k < |rs| ensures rs[k].controlId == controls[k].id {
      StatusesAsExpected(controls, events, k);
    }
  }

  // ---- a verdict that went stale -------------------------------------------

  const EVERYTHING := Filter(None, None, None, None, [], [])
  const STALE := Control("c", EVERYTHING, Condition.Field(None, Ne, Str("x")), InsufficientEvidence, false)

  /**
   A commit between evaluation and the head can make the report fail deep
   verification: a control with no event in scope lacked evidence, and with
   any one event it is satisfied.
   */
  lemma {:induction false} StaleVerdict(event: Value)
    requires !IsGap(event)
    ensures Results([STALE], [], 1).Some? && Results([STALE], [event], 1).Some?
    ensures !VerdictsMatch(Lines(Results([STALE], [], 1).value), Results([STALE], [event], 1).value)
  {
    var rs0, rs1 := Results([STALE], [], 1), Results([STALE], [event], 1);
    assert Matches(event, EVERYTHING);
    assert Scoped([event], EVERYTHING, 0) == [0];
    StatusesAsExpected([STALE], [], 0);
    StatusesAsExpected([STALE], [event], 0);
    MatchIffUnchanged([STALE], [], [event]);
    UnchangedIfDistinct([STALE], [], [event]);
  }
}
