/**
 What the comparisons of the crosswalk engine mean, said without their
 recursion: equality is equality of normal forms, paths compose, and order is
 decided by numbers, by code points or at a first difference.
 */
module PyLaws {
  import opened Json
  import opened Utf8
  import opened PyValue

  // ---- equality and truth --------------------------------------------------

  /** The value with every truth value and number written as a floating-point number. */
  function Normal(v: Value): Value {
    match v
    case Bool(b) => Float(if b then 1.0 else 0.0)
    case Int(i) => Float(i as real)
    case Arr(es) => Arr(seq(|es|, i requires 0 <= i < |es| => Normal(es[i])))
    case Obj(m) => Obj(map k | k in m :: Normal(m[k]))
    case _ => v
  }

  /** Python equality is equality of normal forms. */
  lemma {:induction false} EqIsNormal(a: Value, b: Value)
    ensures PyEq(a, b) <==> Normal(a) == Normal(b)
    decreases a, 1
  {
    match a
    case Arr(es) =>
      if b.Arr? && |es| == |b.elems| {
        EqElems(a, b);
      } else if b.Arr? {
        assert |Normal(a).elems| == |es| && |Normal(b).elems| == |b.elems|;
      }
    case Obj(m) =>
      if b.Obj? && m.Keys == b.members.Keys {
        EqMembers(a, b);
      } else if b.Obj? {
        assert Normal(a).members.Keys == m.Keys && Normal(b).members.Keys == b.members.Keys;
      }
    case _ =>
  }

  lemma {:induction false} EqElems(a: Value, b: Value)
    requires a.Arr? && b.Arr? && |a.elems| == |b.elems|
    ensures PyEq(a, b) <==> Normal(a) == Normal(b)
    decreases a, 0
  {
    var x, y := Normal(a).elems, Normal(b).elems;
    forall i | 0 <= i < |a.elems| ensures PyEq(a.elems[i], b.elems[i]) <==> x[i] == y[i] {
      EqIsNormal(a.elems[i], b.elems[i]);
    }
    if forall i :: 0 <= i < |x| ==> x[i] == y[i] {
      assert x == y;
    }
  }

  lemma {:induction false} EqMembers(a: Value, b: Value)
    requires a.Obj? && b.Obj? && a.members.Keys == b.members.Keys
    ensures PyEq(a, b) <==> Normal(a) == Normal(b)
    decreases a, 0
  {
    var x, y := Normal(a).members, Normal(b).members;
    assert x.Keys == a.members.Keys && y.Keys == b.members.Keys;
    forall k | k in a.members ensures PyEq(a.members[k], b.members[k]) <==> x[k] == y[k] {
      EqIsNormal(a.members[k], b.members[k]);
    }
    if forall k :: k in x ==> x[k] == y[k] {
      assert x == y;
    }
  }

  /** Exactly seven values are false. */
  lemma {:induction false} FalsyValues(v: Value)
    ensures !Truthy(v) <==> v in [Null, Bool(false), Int(0), Float(0.0), Str(""), Arr([]), Obj(map[])]
  {
  }

  // ---- paths ---------------------------------------------------------------

  /** A path is followed one step at a time. */
  lemma {:induction false} PathJoined(d: Value, p: seq<string>, q: seq<string>)
    ensures GetPath(d, p + q) == GetPath(GetPath(d, p), q)
    decreases |p|
  {
    if p == [] {
      assert p + q == q;
    } else {
      assert (p + q)[0] == p[0] && (p + q)[1..] == p[1..] + q;
      if d.Obj? && p[0] in d.members {
        PathJoined(d.members[p[0]], p[1..], q);
      } else {
        NullPath(q);
      }
    }
  }

  lemma NullPath(q: seq<string>)
    ensures GetPath(Null, q) == Null
  {
  }

  lemma {:induction false} OneStep(d: Value, k: string)
    ensures GetPath(d, [k]) == if d.Obj? && k in d.members then d.members[k] else Null
  {
    assert [k][1..] == [];
  }

  /** The value with `v` put at a path, objects being made on the way. */
  function Put(d: Value, path: seq<string>, v: Value): Value
    decreases |path|
  {
    if path == [] then v
    else
      var m := if d.Obj? then d.members else map[];
      Obj(m[path[0] := Put(if path[0] in m then m[path[0]] else Null, path[1..], v)])
  }

  lemma {:induction false} GetPut(d: Value, path: seq<string>, v: Value)
    ensures GetPath(Put(d, path, v), path) == v
    decreases |path|
  {
    if path != [] {
      var m := if d.Obj? then d.members else map[];
      GetPut(if path[0] in m then m[path[0]] else Null, path[1..], v);
    }
  }

  /** The two paths part at some step. */
  predicate Apart(p: seq<string>, q: seq<string>)
    decreases |p|
  {
    p != [] && q != [] && (p[0] != q[0] || Apart(p[1..], q[1..]))
  }

  lemma {:induction false} GetOther(d: Value, path: seq<string>, v: Value, q: seq<string>)
    requires Apart(path, q)
    ensures GetPath(Put(d, path, v), q) == GetPath(d, q)
    decreases |path|
  {
    var m := if d.Obj? then d.members else map[];
    if path[0] == q[0] {
      var inner := if path[0] in m then m[path[0]] else Null;
      GetOther(inner, path[1..], v, q[1..]);
      if path[0] !in m {
        NullPath(q[1..]);
      }
    }
  }

  // ---- order ---------------------------------------------------------------

  /** Numbers are ordered by value. */
  lemma {:induction false} NumbersOrdered(a: Value, b: Value)
    requires IsNum(a) && IsNum(b)
    ensures PyGe(a, b) == Is(Normal(a).f >= Normal(b).f) && PyLe(a, b) == Is(Normal(a).f <= Normal(b).f)
  {
  }

  /** Texts are ordered by their first difference, a text before every longer one that goes on from it. */
  ghost predicate Before(s: string, t: string) {
    s < t || exists i :: 0 <= i < |s| && i < |t| && s[..i] == t[..i] && s[i] < t[i]
  }

  lemma {:induction false} TextsOrdered(s: string, t: string)
    ensures PyGe(Str(s), Str(t)) == Is(!Before(s, t)) && PyLe(Str(s), Str(t)) == Is(!Before(t, s))
  {
    LessIsBefore(s, t);
    LessIsBefore(t, s);
  }

  lemma {:induction false} LessIsBefore(s: string, t: string)
    ensures StringLess(s, t) <==> Before(s, t)
    decreases |s|
  {
    if s != [] && t != [] && s[0] == t[0] {
      LessIsBefore(s[1..], t[1..]);
      BeforeStep(s, t);
    } else if s != [] && t != [] {
      assert s[..0] == t[..0];
      assert forall i :: 0 < i <= |s| && i <= |t| ==> s[..i][0] == s[0] && t[..i][0] == t[0];
    }
  }

  lemma {:induction false} BeforeStep(s: string, t: string)
    requires s != [] && t != [] && s[0] == t[0]
    ensures Before(s, t) <==> Before(s[1..], t[1..])
  {
    var s', t' := s[1..], t[1..];
    assert s == [s[0]] + s' && t == [s[0]] + t';
    if i :| 0 <= i < |s| && i < |t| && s[..i] == t[..i] && s[i] < t[i] {
      assert s'[..i - 1] == s[..i][1..] && t'[..i - 1] == t[..i][1..];
      assert s'[i - 1] < t'[i - 1];
    }
    if i :| 0 <= i < |s'| && i < |t'| && s'[..i] == t'[..i] && s'[i] < t'[i] {
      assert s[..i + 1] == [s[0]] + s'[..i] && t[..i + 1] == [s[0]] + t'[..i];
      assert s[i + 1] < t[i + 1];
    }
  }

  /** The first `d` elements of both lists are equal in pairs. */
  ghost predicate AgreeUpTo(a: Value, b: Value, d: nat) {
    a.Arr? && b.Arr? && d <= |a.elems| && d <= |b.elems| && forall j :: 0 <= j < d ==> PyEq(a.elems[j], b.elems[j])
  }

  /** Lists are ordered by their first difference, a list before every longer one that goes on from it. */
  lemma {:induction false} ListsOrdered(a: Value, b: Value, d: nat)
    requires AgreeUpTo(a, b, d)
    ensures d < |a.elems| && d < |b.elems| && !PyEq(a.elems[d], b.elems[d]) ==>
      PyGe(a, b) == PyGe(a.elems[d], b.elems[d]) && PyLe(a, b) == PyLe(a.elems[d], b.elems[d])
    ensures d == |a.elems| || d == |b.elems| ==>
      PyGe(a, b) == Is(|a.elems| >= |b.elems|) && PyLe(a, b) == Is(|a.elems| <= |b.elems|)
  {
    SkipEqual(a, b, 0, d);
  }

  lemma {:induction false} SkipEqual(a: Value, b: Value, i: nat, d: nat)
    requires AgreeUpTo(a, b, d) && i <= d
    ensures ListGe(a, b, i) == ListGe(a, b, d) && ListLe(a, b, i) == ListLe(a, b, d)
    decreases d - i
  {
    if i < d {
      SkipEqual(a, b, i + 1, d);
    }
  }

  /** Values of different kinds are not ordered, nor are nulls and dictionaries. */
  lemma {:induction false} Unordered(a: Value, b: Value)
    requires !(IsNum(a) && IsNum(b)) && !(a.Str? && b.Str?) && !(a.Arr? && b.Arr?)
    ensures PyGe(a, b) == Raise && PyLe(a, b) == Raise
  {
  }

  /** Either order is the other one turned round. */
  lemma {:induction false} OrderTurned(a: Value, b: Value)
    ensures PyLe(a, b) == PyGe(b, a)
    decreases a, 1
  {
    if a.Arr? && b.Arr? {
      ListTurned(a, b, 0);
    }
  }

  lemma {:induction false} ListTurned(a: Value, b: Value, i: nat)
    requires a.Arr? && b.Arr? && i <= |a.elems| && i <= |b.elems|
    ensures ListLe(a, b, i) == ListGe(b, a, i)
    decreases a, 0, |a.elems| - i
  {
    if i < |a.elems| && i < |b.elems| {
      var x, y := a.elems[i], b.elems[i];
      EqIsNormal(x, y);
      EqIsNormal(y, x);
      OrderTurned(x, y);
      ListTurned(a, b, i + 1);
    }
  }

  // ---- membership ----------------------------------------------------------

  /**
   In a list: some element is equal. In a text: it occurs there. In a
   dictionary: it is a key. Nothing is in a false value.
   */
  lemma {:induction false} InMeans(a: Value, c: Value)
    ensures c.Arr? ==> PyIn(a, c) == Is(exists e :: e in c.elems && Normal(a) == Normal(e))
    ensures c.Str? && a.Str? ==> PyIn(a, c) == Is(c.s != "" && Occurs(a.s, c.s))
    ensures c.Obj? && a.Str? ==> PyIn(a, c) == Is(a.s in c.members)
    ensures !Truthy(c) ==> PyIn(a, c) == Is(false)
    ensures Truthy(c) && (c.Str? ==> !a.Str?) && (c.Obj? ==> a.Arr? || a.Obj?) && !c.Arr? ==> PyIn(a, c) == Raise
  {
    if c.Arr? {
      InList(a, c.elems);
    }
    if c.Str? && a.Str? {
      OccursAt(a.s, c.s);
    }
  }

  lemma {:induction false} InList(a: Value, es: seq<Value>)
    ensures (exists i :: 0 <= i < |es| && PyEq(a, es[i])) <==> exists e :: e in es && Normal(a) == Normal(e)
  {
    forall i | 0 <= i < |es| ensures PyEq(a, es[i]) <==> Normal(a) == Normal(es[i]) {
      EqIsNormal(a, es[i]);
    }
    if e :| e in es && Normal(a) == Normal(e) {
      var i :| 0 <= i < |es| && es[i] == e;
      assert PyEq(a, es[i]);
    }
  }

  ghost predicate Occurs(needle: string, hay: string) {
    exists before: string, after: string :: hay == before + needle + after
  }

  lemma {:induction false} OccursAt(needle: string, hay: string)
    ensures (exists i :: 0 <= i <= |hay| && ContainsAt(hay, needle, i)) <==> Occurs(needle, hay)
  {
    if i :| 0 <= i <= |hay| && ContainsAt(hay, needle, i) {
      assert hay == hay[..i] + needle + hay[i..][|needle|..];
    }
    if before: string, after: string :| hay == before + needle + after {
      assert hay[|before|..] == needle + after;
      assert ContainsAt(hay, needle, |before|);
    }
  }
}
