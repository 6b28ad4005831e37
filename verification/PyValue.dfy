/**
 How the crosswalk engine compares JSON values: Python equality (under which
 true equals 1 and false equals 0, and 1 equals 1.0, at any depth), truth, membership and order,
 with `Raise` where Python raises an error.
 */
module PyValue {
  import opened Json
  import opened Utf8

  datatype Truth = Raise | Is(b: bool)

  predicate IsNum(v: Value) {
    v.Bool? || v.Int? || v.Float?
  }

  /** Python compares numbers of different types by their exact value. */
  function Num(v: Value): real
    requires IsNum(v)
  {
    match v
    case Bool(b) => if b then 1.0 else 0.0
    case Int(i) => i as real
    case Float(f) => f
  }

  predicate PyEq(a: Value, b: Value) {
    if IsNum(a) || IsNum(b) then IsNum(a) && IsNum(b) && Num(a) == Num(b)
    else match a
      case Null => b.Null?
      case Str(s) => b == a
      case Arr(es) => b.Arr? && |es| == |b.elems| && forall i :: 0 <= i < |es| ==> PyEq(es[i], b.elems[i])
      case Obj(m) =>
        b.Obj? && m.Keys == b.members.Keys && forall k :: k in m && k in b.members ==> PyEq(m[k], b.members[k])
      case _ => false
  }

  predicate Truthy(v: Value) {
    match v
    case Null => false
    case Bool(b) => b
    case Int(i) => i != 0
    case Float(f) => f != 0.0
    case Str(s) => s != []
    case Arr(es) => es != []
    case Obj(m) => m != map[]
  }

  /** Walk down nested objects; null when a step is missing. */
  function GetPath(d: Value, path: seq<string>): Value
    decreases |path|
  {
    if path == [] then d
    else if d.Obj? && path[0] in d.members then GetPath(d.members[path[0]], path[1..])
    else Null
  }

  /** The loop with which the engine does that. */
  method Get(d: Value, path: seq<string>) returns (cur: Value)
    ensures cur == GetPath(d, path)
  {
    cur := d;
    for i := 0 to |path|
      invariant GetPath(cur, path[i..]) == GetPath(d, path)
    {
      assert path[i..][0] == path[i] && path[i..][1..] == path[i + 1..];
      if cur.Obj? && path[i] in cur.members {
        cur := cur.members[path[i]];
      } else {
        return Null;
      }
    }
  }

  predicate ContainsAt(hay: string, needle: string, i: nat) {
    i <= |hay| && needle <= hay[i..]
  }

  /** `a in c` for a list, a text or a dictionary. */
  function PyIn(a: Value, c: Value): Truth {
    if !Truthy(c) then Is(false)
    else match c
      case Arr(es) => Is(exists i :: 0 <= i < |es| && PyEq(a, es[i]))
      case Str(s) => if a.Str? then Is(exists i :: 0 <= i <= |s| && ContainsAt(s, a.s, i)) else Raise
      case Obj(m) => if a.Arr? || a.Obj? then Raise else Is(a.Str? && a.s in m)
      case _ => Raise
  }

  /** `a >= b`; lists compare at their first difference. */
  function PyGe(a: Value, b: Value): Truth
    decreases a, 1
  {
    if IsNum(a) && IsNum(b) then Is(Num(a) >= Num(b))
    else if a.Str? && b.Str? then Is(!StringLess(a.s, b.s))
    else if a.Arr? && b.Arr? then ListGe(a, b, 0)
    else Raise
  }

  function ListGe(a: Value, b: Value, i: nat): Truth
    requires a.Arr? && b.Arr? && i <= |a.elems| && i <= |b.elems|
    decreases a, 0, |a.elems| - i
  {
    if i == |a.elems| || i == |b.elems| then Is(|a.elems| >= |b.elems|)
    else if PyEq(a.elems[i], b.elems[i]) then ListGe(a, b, i + 1)
    else PyGe(a.elems[i], b.elems[i])
  }

  /** `a <= b` is decided the same way round the other way. */
  function PyLe(a: Value, b: Value): Truth
    decreases a, 1
  {
    if IsNum(a) && IsNum(b) then Is(Num(a) <= Num(b))
    else if a.Str? && b.Str? then Is(!StringLess(b.s, a.s))
    else if a.Arr? && b.Arr? then ListLe(a, b, 0)
    else Raise
  }

  function ListLe(a: Value, b: Value, i: nat): Truth
    requires a.Arr? && b.Arr? && i <= |a.elems| && i <= |b.elems|
    decreases a, 0, |a.elems| - i
  {
    if i == |a.elems| || i == |b.elems| then Is(|a.elems| <= |b.elems|)
    else if PyEq(a.elems[i], b.elems[i]) then ListLe(a, b, i + 1)
    else PyLe(a.elems[i], b.elems[i])
  }

  // ---- equality is respected -----------------------------------------------

  lemma {:induction false} EqSymmetric(a: Value, b: Value)
    requires PyEq(a, b)
    ensures PyEq(b, a)
  {
    match a
    case Arr(es) =>
      forall i | 0 <= i < |es| ensures PyEq(b.elems[i], es[i]) {
        EqSymmetric(es[i], b.elems[i]);
      }
    case Obj(m) =>
      forall k | k in m ensures PyEq(b.members[k], m[k]) {
        EqSymmetric(m[k], b.members[k]);
      }
    case _ =>
  }

  lemma {:induction false} EqTransitive(a: Value, b: Value, c: Value)
    requires PyEq(a, b) && PyEq(b, c)
    ensures PyEq(a, c)
  {
    match a
    case Arr(es) =>
      forall i | 0 <= i < |es| ensures PyEq(es[i], c.elems[i]) {
        EqTransitive(es[i], b.elems[i], c.elems[i]);
      }
    case Obj(m) =>
      forall k | k in m ensures PyEq(m[k], c.members[k]) {
        EqTransitive(m[k], b.members[k], c.members[k]);
      }
    case _ =>
  }

  /** Equal values are interchangeable on the left of a comparison. */
  lemma {:induction false} EqSwap(a: Value, a': Value, c: Value)
    requires PyEq(a, a')
    ensures PyEq(a, c) <==> PyEq(a', c)
  {
    EqSymmetric(a, a');
    if PyEq(a, c) {
      EqTransitive(a', a, c);
    }
    if PyEq(a', c) {
      EqTransitive(a, a', c);
    }
  }

  lemma {:induction false} EqTruthy(a: Value, b: Value)
    requires PyEq(a, b)
    ensures Truthy(a) == Truthy(b) && (a.Null? <==> b.Null?)
  {
    if a.Obj? {
      assert a.members == map[] <==> a.members.Keys == {};
      assert b.members == map[] <==> b.members.Keys == {};
    }
  }

  lemma {:induction false} EqGetPath(a: Value, b: Value, path: seq<string>)
    requires PyEq(a, b)
    ensures PyEq(GetPath(a, path), GetPath(b, path))
    decreases |path|
  {
    if path != [] && a.Obj? && path[0] in a.members {
      assert path[0] in b.members;
      EqGetPath(a.members[path[0]], b.members[path[0]], path[1..]);
    }
  }

  lemma EqIn(a: Value, b: Value, c: Value)
    requires PyEq(a, b)
    ensures PyIn(a, c) == PyIn(b, c)
  {
    if c.Arr? {
      forall i | 0 <= i < |c.elems| ensures PyEq(a, c.elems[i]) <==> PyEq(b, c.elems[i]) {
        EqSwap(a, b, c.elems[i]);
      }
    }
  }

  lemma {:induction false} EqGe(a: Value, b: Value, c: Value)
    requires PyEq(a, b)
    ensures PyGe(a, c) == PyGe(b, c)
    decreases a, 1
  {
    if a.Arr? && c.Arr? {
      EqListGe(a, b, c, 0);
    }
  }

  lemma {:induction false} EqListGe(a: Value, b: Value, c: Value, i: nat)
    requires PyEq(a, b) && a.Arr? && c.Arr? && i <= |a.elems| && i <= |c.elems|
    ensures ListGe(a, c, i) == ListGe(b, c, i)
    decreases a, 0, |a.elems| - i
  {
    if i < |a.elems| && i < |c.elems| {
      EqSwap(a.elems[i], b.elems[i], c.elems[i]);
      EqGe(a.elems[i], b.elems[i], c.elems[i]);
      EqListGe(a, b, c, i + 1);
    }
  }

  lemma {:induction false} EqLe(a: Value, b: Value, c: Value)
    requires PyEq(a, b)
    ensures PyLe(a, c) == PyLe(b, c)
    decreases a, 1
  {
    if a.Arr? && c.Arr? {
      EqListLe(a, b, c, 0);
    }
  }

  lemma {:induction false} EqListLe(a: Value, b: Value, c: Value, i: nat)
    requires PyEq(a, b) && a.Arr? && c.Arr? && i <= |a.elems| && i <= |c.elems|
    ensures ListLe(a, c, i) == ListLe(b, c, i)
    decreases a, 0, |a.elems| - i
  {
    if i < |a.elems| && i < |c.elems| {
      EqSwap(a.elems[i], b.elems[i], c.elems[i]);
      EqLe(a.elems[i], b.elems[i], c.elems[i]);
      EqListLe(a, b, c, i + 1);
    }
  }
}
