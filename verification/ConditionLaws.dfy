/**
 What filters, links and conditions mean, said without the interpreter's
 recursion and with the names of the fields written out.
 */
module ConditionLaws {
  import opened Prelude
  import opened Json
  import opened PyValue
  import opened PyLaws
  import opened Crosswalk

  // ---- filters -------------------------------------------------------------

  /** What a filter asks of the value at one path. */
  datatype Constraint =
    | TextIn(path: Path, texts: seq<string>)
    | EqualTo(path: Path, value: Value)
    | Present(path: Path)

  ghost predicate Allows(c: Constraint, v: Value) {
    match c
    case TextIn(_, texts) => exists t :: t in texts && v == Str(t)
    case EqualTo(_, w) => Normal(v) == Normal(w)
    case Present(_) => v != Null
  }

  ghost predicate Asks(f: Filter, c: Constraint) {
    match c
    case TextIn(path, texts) =>
      || (path == ["kind"] && f.kind == Some(texts))
      || (path == ["risk", "classification"] && f.riskClassification == Some(texts))
      || (path == ["oversight", "status"] && f.oversightStatus == Some(texts))
      || (path == ["source", "format"] && f.sourceFormat == Some(texts))
    case EqualTo(path, value) => (path, value) in f.attributeEquals
    case Present(path) => path in f.has
  }

  lemma {:induction false} TextAllowed(ev: Value, path: Path, texts: Option<seq<string>>)
    ensures OneOf(GetPath(ev, path), texts) <==> (texts.Some? ==> Allows(TextIn(path, texts.value), GetPath(ev, path)))
  {
  }

  /** An event matches exactly if every constraint of the filter allows its value at the path. */
  lemma {:induction false} MatchesIff(ev: Value, f: Filter)
    ensures Matches(ev, f) <==> forall c :: Asks(f, c) ==> Allows(c, GetPath(ev, c.path))
  {
    if Matches(ev, f) {
      forall c | Asks(f, c) ensures Allows(c, GetPath(ev, c.path)) {
        MatchAllows(ev, f, c);
      }
    }
    if forall c :: Asks(f, c) ==> Allows(c, GetPath(ev, c.path)) {
      AllowedMatches(ev, f);
    }
  }

  lemma {:induction false} MatchAllows(ev: Value, f: Filter, c: Constraint)
    requires Matches(ev, f) && Asks(f, c)
    ensures Allows(c, GetPath(ev, c.path))
  {
    match c
    case TextIn(path, texts) =>
    case EqualTo(path, value) =>
      var i :| 0 <= i < |f.attributeEquals| && f.attributeEquals[i] == (path, value);
      EqIsNormal(GetPath(ev, path), value);
    case Present(path) =>
  }

  lemma {:induction false} AllowedMatches(ev: Value, f: Filter)
    requires forall c :: Asks(f, c) ==> Allows(c, GetPath(ev, c.path))
    ensures Matches(ev, f)
  {
    AllowedText(ev, f, ["kind"], f.kind);
    AllowedText(ev, f, ["risk", "classification"], f.riskClassification);
    AllowedText(ev, f, ["oversight", "status"], f.oversightStatus);
    AllowedText(ev, f, ["source", "format"], f.sourceFormat);
    forall i | 0 <= i < |f.attributeEquals|
      ensures PyEq(GetPath(ev, f.attributeEquals[i].0), f.attributeEquals[i].1)
    {
      var (path, value) := f.attributeEquals[i];
      assert Asks(f, EqualTo(path, value));
      EqIsNormal(GetPath(ev, path), value);
    }
    forall i | 0 <= i < |f.has| ensures GetPath(ev, f.has[i]) != Null {
      assert Asks(f, Present(f.has[i]));
    }
  }

  lemma {:induction false} AllowedText(ev: Value, f: Filter, path: Path, texts: Option<seq<string>>)
    requires forall c :: Asks(f, c) ==> Allows(c, GetPath(ev, c.path))
    requires texts.Some? ==> Asks(f, TextIn(path, texts.value))
    ensures OneOf(GetPath(ev, path), texts)
  {
    TextAllowed(ev, path, texts);
    if texts.Some? {
      assert Allows(TextIn(path, texts.value), GetPath(ev, path));
    }
  }

  /**
   A match that is changed at the path of one constraint, and nowhere that
   another one looks, stays a match exactly if that constraint allows the new
   value.
   */
  lemma {:induction false} ChangedField(ev: Value, f: Filter, c: Constraint, v: Value)
    requires Matches(ev, f) && Asks(f, c)
    requires forall d :: Asks(f, d) && d != c ==> Apart(c.path, d.path)
    ensures Matches(Put(ev, c.path, v), f) <==> Allows(c, v)
  {
    var ev' := Put(ev, c.path, v);
    MatchesIff(ev, f);
    MatchesIff(ev', f);
    GetPut(ev, c.path, v);
    forall d | Asks(f, d) && d != c ensures GetPath(ev', d.path) == GetPath(ev, d.path) {
      GetOther(ev, c.path, v, d.path);
    }
  }

  // ---- links ---------------------------------------------------------------

  /** The field that a link by equal values compares. */
  predicate Compares(link: Link, path: Path) {
    || (link == SameTask && path == ["provenance", "task_id"])
    || (link == SameContext && path == ["provenance", "context_id"])
    || (link == ReferencesRoot && path == ["provenance", "root_task_id"])
  }

  predicate IsTarget(ev: Value, target: Option<Filter>) {
    target.Some? ==> Matches(ev, target.value)
  }

  /** The other event has the value of this one at the path, and is a target. */
  ghost predicate Joined(ev: Value, other: Value, path: Path, target: Option<Filter>) {
    && GetPath(ev, path) != Null && Normal(GetPath(other, path)) == Normal(GetPath(ev, path))
    && IsTarget(other, target)
  }

  lemma {:induction false} PartnerIsJoined(events: seq<Value>, i: nat, k: nat, path: Path, target: Option<Filter>)
    requires i < |events| && k < |events| && GetPath(events[i], path) != Null
    ensures IsPartner(events, k, path, GetPath(events[i], path), target)
       <==> Joined(events[i], events[k], path, target)
  {
    EqIsNormal(GetPath(events[k], path), GetPath(events[i], path));
  }

  /** An event is linked exactly if it is joined to another one. */
  lemma {:induction false} LinkedIff(events: seq<Value>, i: nat, link: Link, path: Path, target: Option<Filter>)
    requires i < |events| && Compares(link, path)
    ensures LinkHolds(events, i, link, target)
         == Is(exists k :: 0 <= k < |events| && k != i && Joined(events[i], events[k], path, target))
  {
    var mine := GetPath(events[i], path);
    assert LinkPath(link) == path;
    if mine != Null {
      forall k | 0 <= k < |events|
        ensures IsPartner(events, k, path, mine, target) <==> Joined(events[i], events[k], path, target)
      {
        PartnerIsJoined(events, i, k, path, target);
      }
    }
  }

  /** A further event links those that are joined to it, and unlinks none. */
  lemma {:induction false} LinkGrows(events: seq<Value>, e: Value, i: nat, link: Link, path: Path, target: Option<Filter>)
    requires i < |events| && Compares(link, path)
    ensures LinkHolds(events + [e], i, link, target) == Is(true)
       <==> LinkHolds(events, i, link, target) == Is(true) || Joined(events[i], e, path, target)
  {
    var more := events + [e];
    LinkedIff(events, i, link, path, target);
    LinkedIff(more, i, link, path, target);
    assert more[|events|] == e;
    forall k | 0 <= k < |events| && k != i && Joined(events[i], events[k], path, target)
      ensures Joined(more[i], more[k], path, target)
    {
    }
  }

  /** Event `k` is the last one with this id. */
  ghost predicate LastWithId(events: seq<Value>, ref: Value, k: nat) {
    && k < |events| && HasId(events[k], ref)
    && forall l :: k < l < |events| ==> !HasId(events[l], ref)
  }

  ghost predicate HasId(ev: Value, ref: Value) {
    var id := GetPath(ev, ["event_id"]);
    Truthy(id) && Normal(id) == Normal(ref)
  }

  lemma {:induction false} HasIdIff(ev: Value, ref: Value)
    ensures var id := GetPath(ev, ["event_id"]); Truthy(id) && PyEq(id, ref) <==> HasId(ev, ref)
  {
    EqIsNormal(GetPath(ev, ["event_id"]), ref);
  }

  lemma {:induction false} ByIdMeans(events: seq<Value>, ref: Value, n: nat)
    requires n <= |events|
    ensures var r := ById(events, ref, n);
      if r.Some? then HasId(events[r.value], ref) && forall l :: r.value < l < n ==> !HasId(events[l], ref)
      else forall l :: 0 <= l < n ==> !HasId(events[l], ref)
    decreases n
  {
    if n > 0 {
      HasIdIff(events[n - 1], ref);
      ByIdMeans(events, ref, n - 1);
    }
  }

  /** An approval counts exactly if the last event with the id that is referred to is a target. */
  lemma {:induction false} ApprovalIff(events: seq<Value>, i: nat, target: Option<Filter>)
    requires i < |events|
    ensures var ref, r := GetPath(events[i], ["oversight", "approval_ref"]), LinkHolds(events, i, ApprovalRef, target);
      if !Truthy(ref) then r == Is(false)
      else if ref.Arr? || ref.Obj? then r == Raise
      else r == Is(exists k :: 0 <= k < |events| && LastWithId(events, ref, k) && IsTarget(events[k], target))
  {
    var ref := GetPath(events[i], ["oversight", "approval_ref"]);
    ByIdMeans(events, ref, |events|);
    var cand := ById(events, ref, |events|);
    if cand.Some? {
      assert LastWithId(events, ref, cand.value);
    }
  }

  // ---- fields --------------------------------------------------------------

  /** The value that a condition on a field looks at. */
  function Looked(ev: Value, path: Option<Path>): Value {
    if path.None? then Null else GetPath(ev, path.value)
  }

  lemma {:induction false} FieldEquality(events: seq<Value>, i: nat, path: Option<Path>, w: Value)
    requires i < |events|
    ensures var v := Looked(events[i], path);
      && Holds(events, i, Field(path, Exists, w)) == Is(v != Null)
      && Holds(events, i, Field(path, Op.Eq, w)) == Is(Normal(v) == Normal(w))
      && Holds(events, i, Field(path, Ne, w)) == Is(Normal(v) != Normal(w))
      && Holds(events, i, Field(path, OtherOp, w)) == Is(false)
  {
    EqIsNormal(Looked(events[i], path), w);
  }

  /** Membership in a list, and no membership in a missing one. */
  lemma {:induction false} FieldIn(events: seq<Value>, i: nat, path: Option<Path>, w: Value)
    requires i < |events|
    ensures var v, r := Looked(events[i], path), Holds(events, i, Field(path, In, w));
      && (w.Arr? ==> r == Is(exists e :: e in w.elems && Normal(v) == Normal(e)))
      && (!Truthy(w) ==> r == Is(false))
      && r == PyIn(v, w)
  {
    InMeans(Looked(events[i], path), w);
  }

  /** Bounds: a missing value is within none; numbers are compared by value, texts by code points. */
  lemma {:induction false} FieldBounds(events: seq<Value>, i: nat, path: Option<Path>, w: Value)
    requires i < |events|
    ensures var v := Looked(events[i], path);
      var ge, le := Holds(events, i, Field(path, Gte, w)), Holds(events, i, Field(path, Lte, w));
      && (v == Null ==> ge == le == Is(false))
      && (IsNum(v) && IsNum(w) ==> ge == Is(Normal(v).f >= Normal(w).f) && le == Is(Normal(v).f <= Normal(w).f))
      && (v.Str? && w.Str? ==> ge == Is(!Before(v.s, w.s)) && le == Is(!Before(w.s, v.s)))
      && (v != Null ==> ge == PyGe(v, w) && le == PyGe(w, v))
  {
    var v := Looked(events[i], path);
    if v.Str? && w.Str? {
      TextsOrdered(v.s, w.s);
    }
    OrderTurned(v, w);
  }

  /** An event counts as committed exactly by the leaf hash that it carries. */
  lemma {:induction false} CommittedMeans(events: seq<Value>, i: nat, v: Value)
    requires i < |events|
    ensures var es := events[i := Put(events[i], ["ledger", "leaf_hash"], v)];
      Holds(es, i, Committed) == Is(Truthy(v))
  {
    GetPut(events[i], ["ledger", "leaf_hash"], v);
  }

  /** What the engine does not know raises an error. */
  lemma {:induction false} UnknownRaises(events: seq<Value>, i: nat, target: Option<Filter>)
    requires i < |events|
    ensures Holds(events, i, UnknownType) == Raise && Holds(events, i, Linked(UnknownLink, target)) == Raise
  {
  }

  // ---- connectives ---------------------------------------------------------

  /** The first `j` conditions all have this verdict. */
  ghost predicate AllBefore(events: seq<Value>, i: nat, cs: seq<Condition>, verdict: Truth, j: nat)
    requires i < |events|
  {
    j <= |cs| && forall l :: 0 <= l < j ==> Holds(events, i, cs[l]) == verdict
  }

  /** Condition `j` is the first with another verdict than this one. */
  ghost predicate Decides(events: seq<Value>, i: nat, cs: seq<Condition>, verdict: Truth, j: nat)
    requires i < |events|
  {
    j < |cs| && AllBefore(events, i, cs, verdict, j) && Holds(events, i, cs[j]) != verdict
  }

  /** The first condition with another verdict than `verdict` has the verdict `other`. */
  ghost predicate DecidedAs(events: seq<Value>, i: nat, cs: seq<Condition>, verdict: Truth, other: Truth)
    requires i < |events|
  {
    exists j :: 0 <= j < |cs| && Decides(events, i, cs, verdict, j) && Holds(events, i, cs[j]) == other
  }

  lemma {:induction false} FirstOther(events: seq<Value>, i: nat, cs: seq<Condition>, verdict: Truth, k: nat)
    returns (j: nat)
    requires i < |events| && AllBefore(events, i, cs, verdict, k)
    ensures if j < |cs| then Decides(events, i, cs, verdict, j)
            else j == |cs| && AllBefore(events, i, cs, verdict, j)
    ensures j >= k
    decreases |cs| - k
  {
    if k < |cs| && Holds(events, i, cs[k]) == verdict {
      j := FirstOther(events, i, cs, verdict, k + 1);
    } else {
      j := k;
    }
  }

  lemma {:induction false} AnyFrom(events: seq<Value>, i: nat, c: Condition, k: nat, j: nat)
    requires i < |events| && c.AnyOf? && k <= j <= |c.conditions|
    requires AllBefore(events, i, c.conditions, Is(false), j)
    requires j < |c.conditions| ==> Decides(events, i, c.conditions, Is(false), j)
    ensures AnyHold(events, i, c, k) == if j < |c.conditions| then Holds(events, i, c.conditions[j]) else Is(false)
    decreases j - k
  {
    if k < j {
      AnyFrom(events, i, c, k + 1, j);
    }
  }

  lemma {:induction false} AllFrom(events: seq<Value>, i: nat, c: Condition, k: nat, j: nat)
    requires i < |events| && (c.AllOf? || c.Not?) && k <= j <= |c.conditions|
    requires AllBefore(events, i, c.conditions, Is(true), j)
    requires j < |c.conditions| ==> Decides(events, i, c.conditions, Is(true), j)
    ensures AllHold(events, i, c, k) == if j < |c.conditions| then Holds(events, i, c.conditions[j]) else Is(true)
    decreases j - k
  {
    if k < j {
      AllFrom(events, i, c, k + 1, j);
    }
  }

  /** The first condition that does not fail decides: it holds, or it raises an error. */
  lemma {:induction false} AnyOfMeans(events: seq<Value>, i: nat, cs: seq<Condition>)
    requires i < |events|
    ensures var r := Holds(events, i, AnyOf(cs));
      && (r == Is(true) <==> DecidedAs(events, i, cs, Is(false), Is(true)))
      && (r == Raise <==> DecidedAs(events, i, cs, Is(false), Raise))
      && (r == Is(false) <==> AllBefore(events, i, cs, Is(false), |cs|))
  {
    var j := FirstOther(events, i, cs, Is(false), 0);
    AnyFrom(events, i, AnyOf(cs), 0, j);
    OneDecides(events, i, cs, Is(false), j);
  }

  /** At most one condition is the first with another verdict, and then not all have it. */
  lemma {:induction false} OneDecides(events: seq<Value>, i: nat, cs: seq<Condition>, verdict: Truth, j: nat)
    requires i < |events|
    requires j < |cs| ==> Decides(events, i, cs, verdict, j)
    requires j >= |cs| ==> AllBefore(events, i, cs, verdict, |cs|)
    ensures forall k :: 0 <= k < |cs| && Decides(events, i, cs, verdict, k) ==> k == j
    ensures AllBefore(events, i, cs, verdict, |cs|) <==> j >= |cs|
  {
    forall k | 0 <= k < |cs| && Decides(events, i, cs, verdict, k) ensures k == j {
      assert Holds(events, i, cs[k]) != verdict;
    }
  }

  /** The first condition that does not hold decides: it fails, or it raises an error. */
  lemma {:induction false} AllOfMeans(events: seq<Value>, i: nat, cs: seq<Condition>)
    requires i < |events|
    ensures var r := Holds(events, i, AllOf(cs));
      && (r == Is(false) <==> DecidedAs(events, i, cs, Is(true), Is(false)))
      && (r == Raise <==> DecidedAs(events, i, cs, Is(true), Raise))
      && (r == Is(true) <==> AllBefore(events, i, cs, Is(true), |cs|))
  {
    var j := FirstOther(events, i, cs, Is(true), 0);
    AllFrom(events, i, AllOf(cs), 0, j);
    OneDecides(events, i, cs, Is(true), j);
  }

  function Negated(t: Truth): Truth {
    match t case Raise => Raise case Is(b) => Is(!b)
  }

  /** A negated list fails exactly if all of it holds. */
  lemma {:induction false} NotMeans(events: seq<Value>, i: nat, cs: seq<Condition>)
    requires i < |events|
    ensures Holds(events, i, Not(cs)) == Negated(Holds(events, i, AllOf(cs)))
  {
    var j := FirstOther(events, i, cs, Is(true), 0);
    AllFrom(events, i, AllOf(cs), 0, j);
    AllFrom(events, i, Not(cs), 0, j);
  }

  function NotEach(cs: seq<Condition>): (r: seq<Condition>)
    ensures |r| == |cs| && forall k :: 0 <= k < |cs| ==> r[k] == Not([cs[k]])
  {
    seq(|cs|, k requires 0 <= k < |cs| => Not([cs[k]]))
  }

  lemma {:induction false} NotOne(events: seq<Value>, i: nat, c: Condition)
    requires i < |events|
    ensures Holds(events, i, Not([c])) == Negated(Holds(events, i, c))
  {
    NotMeans(events, i, [c]);
    var j := FirstOther(events, i, [c], Is(true), 0);
    AllFrom(events, i, AllOf([c]), 0, j);
  }

  /** De Morgan's law, errors and the order of evaluation included. */
  lemma {:induction false} DeMorgan(events: seq<Value>, i: nat, cs: seq<Condition>)
    requires i < |events|
    ensures Holds(events, i, AnyOf(cs)) == Negated(Holds(events, i, AllOf(NotEach(cs))))
  {
    var ns := NotEach(cs);
    forall k | 0 <= k < |cs| ensures Holds(events, i, ns[k]) == Negated(Holds(events, i, cs[k])) {
      NotOne(events, i, cs[k]);
    }
    var j := FirstOther(events, i, cs, Is(false), 0);
    AnyFrom(events, i, AnyOf(cs), 0, j);
    AllFrom(events, i, AllOf(ns), 0, j);
  }
}
