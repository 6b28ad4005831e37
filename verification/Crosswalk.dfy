/**
 The crosswalk engine: an interpreter of declarative controls over events.
 An event is its JSON dictionary; its identity is its position in the list,
 which is what the engine's `is` test compares in links.
 */
module Crosswalk {
  import opened Prelude
  import opened Json
  import opened PyValue

  type Path = seq<string>

  datatype Filter = Filter(
    kind: Option<seq<string>>,
    riskClassification: Option<seq<string>>,
    oversightStatus: Option<seq<string>>,
    sourceFormat: Option<seq<string>>,
    attributeEquals: seq<(Path, Value)>,
    has: seq<Path>)

  datatype Op = Exists | Eq | Ne | In | Gte | Lte | OtherOp
  datatype Link = ApprovalRef | SameTask | SameContext | ReferencesRoot | UnknownLink

  datatype Condition =
    | Committed
    | Field(path: Option<Path>, op: Op, value: Value)
    | Linked(link: Link, target: Option<Filter>)
    | AnyOf(conditions: seq<Condition>)
    | AllOf(conditions: seq<Condition>)
    | Not(conditions: seq<Condition>)
    | UnknownType

  datatype Status = Satisfied | NotSatisfied | InsufficientEvidence

  datatype Control = Control(
    id: string,
    scope: Filter,
    condition: Condition,
    emptyScope: Status,
    completenessSensitive: bool)

  datatype ControlResult = ControlResult(
    controlId: string,
    status: Status,
    evaluatedCount: nat,
    satisfiedCount: nat,
    evidenceEventIds: seq<Value>,
    gapEventIds: seq<Value>)

  // ---- filters -------------------------------------------------------------

  /** The value is one of the texts, when a list of texts is given. */
  predicate OneOf(v: Value, texts: Option<seq<string>>) {
    texts.Some? ==> v.Str? && v.s in texts.value
  }

  predicate Matches(ev: Value, f: Filter) {
    && OneOf(GetPath(ev, ["kind"]), f.kind)
    && OneOf(GetPath(ev, ["risk", "classification"]), f.riskClassification)
    && OneOf(GetPath(ev, ["oversight", "status"]), f.oversightStatus)
    && OneOf(GetPath(ev, ["source", "format"]), f.sourceFormat)
    && (forall i :: 0 <= i < |f.attributeEquals| ==>
        PyEq(GetPath(ev, f.attributeEquals[i].0), f.attributeEquals[i].1))
    && (forall i :: 0 <= i < |f.has| ==> GetPath(ev, f.has[i]) != Null)
  }

  // ---- conditions ----------------------------------------------------------

  function LinkPath(link: Link): Path {
    match link
    case SameTask => ["provenance", "task_id"]
    case SameContext => ["provenance", "context_id"]
    case _ => ["provenance", "root_task_id"]
  }

  /** The last of the first `n` events with this id, as the id index keeps it. */
  function ById(events: seq<Value>, ref: Value, n: nat): (r: Option<nat>)
    requires n <= |events|
    ensures r.Some? ==> r.value < n
  {
    if n == 0 then None
    else
      var id := GetPath(events[n - 1], ["event_id"]);
      if Truthy(id) && PyEq(id, ref) then Some(n - 1) else ById(events, ref, n - 1)
  }

  /** Event `k` shares the link value and is a target. */
  predicate IsPartner(events: seq<Value>, k: nat, path: Path, mine: Value, target: Option<Filter>)
    requires k < |events|
  {
    PyEq(GetPath(events[k], path), mine) && (target.None? || Matches(events[k], target.value))
  }

  function LinkHolds(events: seq<Value>, i: nat, link: Link, target: Option<Filter>): Truth
    requires i < |events|
  {
    match link
    case UnknownLink => Raise
    case ApprovalRef =>
      var ref := GetPath(events[i], ["oversight", "approval_ref"]);
      if !Truthy(ref) then Is(false)
      else if ref.Arr? || ref.Obj? then Raise
      else
        var cand := ById(events, ref, |events|);
        Is(cand.Some? && (target.None? || Matches(events[cand.value], target.value)))
    case _ =>
      var mine := GetPath(events[i], LinkPath(link));
      if mine == Null then Is(false)
      else Is(exists k :: 0 <= k < |events| && k != i && IsPartner(events, k, LinkPath(link), mine, target))
  }

  function Compare(actual: Value, op: Op, value: Value): Truth {
    match op
    case Exists => Is(actual != Null)
    case Eq => Is(PyEq(actual, value))
    case Ne => Is(!PyEq(actual, value))
    case In => PyIn(actual, value)
    case Gte => if actual == Null then Is(false) else PyGe(actual, value)
    case Lte => if actual == Null then Is(false) else PyLe(actual, value)
    case OtherOp => Is(false)
  }

  function Holds(events: seq<Value>, i: nat, c: Condition): Truth
    requires i < |events|
    decreases c, 1
  {
    match c
    case Committed => Is(Truthy(GetPath(events[i], ["ledger", "leaf_hash"])))
    case Field(path, op, value) =>
      Compare(if path.None? then Null else GetPath(events[i], path.value), op, value)
    case Linked(link, target) => LinkHolds(events, i, link, target)
    case AnyOf(cs) => AnyHold(events, i, c, 0)
    case AllOf(cs) => AllHold(events, i, c, 0)
    case Not(cs) =>
      (match AllHold(events, i, c, 0)
       case Raise => Raise
       case Is(b) => Is(!b))
    case UnknownType => Raise
  }

  /** Some of the conditions from the `k`-th on holds; stops at the first that does. */
  function AnyHold(events: seq<Value>, i: nat, c: Condition, k: nat): Truth
    requires i < |events| && c.AnyOf? && k <= |c.conditions|
    decreases c, 0, |c.conditions| - k
  {
    if k == |c.conditions| then Is(false)
    else
      match Holds(events, i, c.conditions[k])
      case Raise => Raise
      case Is(b) => if b then Is(true) else AnyHold(events, i, c, k + 1)
  }

  /** All of the conditions from the `k`-th on hold; stops at the first that does not. */
  function AllHold(events: seq<Value>, i: nat, c: Condition, k: nat): Truth
    requires i < |events| && (c.AllOf? || c.Not?) && k <= |c.conditions|
    decreases c, 0, |c.conditions| - k
  {
    if k == |c.conditions| then Is(true)
    else
      match Holds(events, i, c.conditions[k])
      case Raise => Raise
      case Is(b) => if b then AllHold(events, i, c, k + 1) else Is(false)
  }

  // ---- value-equal events are judged alike ---------------------------------

  lemma {:induction false} EqOneOf(a: Value, b: Value, path: Path, texts: Option<seq<string>>)
    requires PyEq(a, b)
    ensures OneOf(GetPath(a, path), texts) <==> OneOf(GetPath(b, path), texts)
  {
    EqGetPath(a, b, path);
  }

  lemma EqMatches(a: Value, b: Value, f: Filter)
    requires PyEq(a, b)
    ensures Matches(a, f) <==> Matches(b, f)
  {
    EqOneOf(a, b, ["kind"], f.kind);
    EqOneOf(a, b, ["risk", "classification"], f.riskClassification);
    EqOneOf(a, b, ["oversight", "status"], f.oversightStatus);
    EqOneOf(a, b, ["source", "format"], f.sourceFormat);
    forall i | 0 <= i < |f.attributeEquals|
      ensures PyEq(GetPath(a, f.attributeEquals[i].0), f.attributeEquals[i].1)
         <==> PyEq(GetPath(b, f.attributeEquals[i].0), f.attributeEquals[i].1)
    {
      var (path, v) := f.attributeEquals[i];
      EqGetPath(a, b, path);
      EqSwap(GetPath(a, path), GetPath(b, path), v);
    }
    forall i | 0 <= i < |f.has| ensures GetPath(a, f.has[i]) != Null <==> GetPath(b, f.has[i]) != Null {
      EqGetPath(a, b, f.has[i]);
      EqTruthy(GetPath(a, f.has[i]), GetPath(b, f.has[i]));
    }
  }

  lemma {:induction false} EqById(events: seq<Value>, r: Value, s: Value, n: nat)
    requires PyEq(r, s) && n <= |events|
    ensures ById(events, r, n) == ById(events, s, n)
    decreases n
  {
    if n > 0 {
      var id := GetPath(events[n - 1], ["event_id"]);
      if PyEq(id, r) {
        EqTransitive(id, r, s);
      }
      if PyEq(id, s) {
        EqSymmetric(r, s);
        EqTransitive(id, s, r);
      }
      EqById(events, r, s, n - 1);
    }
  }

  /** A partner of event `i` is one of `j` too, or else it is `j`, and then `i` is one of `j`. */
  lemma EqPartner(events: seq<Value>, i: nat, j: nat, path: Path, target: Option<Filter>, k: nat)
    requires i < |events| && j < |events| && i != j && PyEq(events[i], events[j])
    requires k < |events| && k != i && IsPartner(events, k, path, GetPath(events[i], path), target)
    ensures var mine := GetPath(events[j], path);
      if k == j then IsPartner(events, i, path, mine, target) else IsPartner(events, k, path, mine, target)
  {
    EqGetPath(events[i], events[j], path);
    var x, y := GetPath(events[i], path), GetPath(events[j], path);
    EqTransitive(GetPath(events[k], path), x, y);
    if target.Some? {
      EqMatches(events[i], events[j], target.value);
    }
  }

  lemma EqLinks(events: seq<Value>, i: nat, j: nat, link: Link, target: Option<Filter>)
    requires i < |events| && j < |events| && PyEq(events[i], events[j])
    requires LinkHolds(events, i, link, target) == Is(true)
    ensures LinkHolds(events, j, link, target) == Is(true)
  {
    if link.ApprovalRef? {
      var path := ["oversight", "approval_ref"];
      EqGetPath(events[i], events[j], path);
      EqTruthy(GetPath(events[i], path), GetPath(events[j], path));
      EqById(events, GetPath(events[i], path), GetPath(events[j], path), |events|);
    } else if i != j {
      var path := LinkPath(link);
      var mine := GetPath(events[i], path);
      EqGetPath(events[i], events[j], path);
      EqTruthy(mine, GetPath(events[j], path));
      var k :| 0 <= k < |events| && k != i && IsPartner(events, k, path, mine, target);
      EqPartner(events, i, j, path, target, k);
    }
  }

  lemma EqLinksRaise(events: seq<Value>, i: nat, j: nat, link: Link, target: Option<Filter>)
    requires i < |events| && j < |events| && PyEq(events[i], events[j])
    ensures LinkHolds(events, i, link, target) == Raise <==> LinkHolds(events, j, link, target) == Raise
  {
    var path := ["oversight", "approval_ref"];
    EqGetPath(events[i], events[j], path);
    EqTruthy(GetPath(events[i], path), GetPath(events[j], path));
  }

  lemma EqLinkHolds(events: seq<Value>, i: nat, j: nat, link: Link, target: Option<Filter>)
    requires i < |events| && j < |events| && PyEq(events[i], events[j])
    ensures LinkHolds(events, i, link, target) == LinkHolds(events, j, link, target)
  {
    EqSymmetric(events[i], events[j]);
    EqLinksRaise(events, i, j, link, target);
    if LinkHolds(events, i, link, target) == Is(true) {
      EqLinks(events, i, j, link, target);
    } else if LinkHolds(events, j, link, target) == Is(true) {
      EqLinks(events, j, i, link, target);
    }
  }

  lemma EqCompare(a: Value, b: Value, op: Op, value: Value)
    requires PyEq(a, b)
    ensures Compare(a, op, value) == Compare(b, op, value)
  {
    EqTruthy(a, b);
    EqSwap(a, b, value);
    EqIn(a, b, value);
    EqGe(a, b, value);
    EqLe(a, b, value);
  }

  /** Value-equal events at different positions get the same answer, in spite of the identity test in links. */
  lemma {:induction false} EqHolds(events: seq<Value>, i: nat, j: nat, c: Condition)
    requires i < |events| && j < |events| && PyEq(events[i], events[j])
    ensures Holds(events, i, c) == Holds(events, j, c)
    decreases c, 1
  {
    match c
    case Committed =>
      EqGetPath(events[i], events[j], ["ledger", "leaf_hash"]);
      EqTruthy(GetPath(events[i], ["ledger", "leaf_hash"]), GetPath(events[j], ["ledger", "leaf_hash"]));
    case Field(path, op, value) =>
      if path.Some? {
        EqGetPath(events[i], events[j], path.value);
        EqCompare(GetPath(events[i], path.value), GetPath(events[j], path.value), op, value);
      }
    case Linked(link, target) => EqLinkHolds(events, i, j, link, target);
    case AnyOf(_) => EqSome(events, i, j, c, 0);
    case AllOf(_) => EqAll(events, i, j, c, 0);
    case Not(_) => EqAll(events, i, j, c, 0);
    case UnknownType =>
  }

  lemma {:induction false} EqSome(events: seq<Value>, i: nat, j: nat, c: Condition, k: nat)
    requires i < |events| && j < |events| && PyEq(events[i], events[j]) && c.AnyOf? && k <= |c.conditions|
    ensures AnyHold(events, i, c, k) == AnyHold(events, j, c, k)
    decreases c, 0, |c.conditions| - k
  {
    if k < |c.conditions| {
      EqHolds(events, i, j, c.conditions[k]);
      EqSome(events, i, j, c, k + 1);
    }
  }

  lemma {:induction false} EqAll(events: seq<Value>, i: nat, j: nat, c: Condition, k: nat)
    requires i < |events| && j < |events| && PyEq(events[i], events[j])
    requires (c.AllOf? || c.Not?) && k <= |c.conditions|
    ensures AllHold(events, i, c, k) == AllHold(events, j, c, k)
    decreases c, 0, |c.conditions| - k
  {
    if k < |c.conditions| {
      EqHolds(events, i, j, c.conditions[k]);
      EqAll(events, i, j, c, k + 1);
    }
  }
}
