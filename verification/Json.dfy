/** JSON values and the cleaning pass that canonical serialization starts with. */
module Json {
  import opened Prelude

  /** A value as the serializers receive it; `Float` is a finite floating-point number. */
  datatype Value =
    | Null
    | Bool(b: bool)
    | Int(i: int)
    | Float(f: real)
    | Str(s: string)
    | Arr(elems: seq<Value>)
    | Obj(members: map<string, Value>)

  predicate FloatFree(v: Value) {
    match v
    case Float(_) => false
    case Arr(es) => forall i :: 0 <= i < |es| ==> FloatFree(es[i])
    case Obj(m) => forall k :: k in m ==> FloatFree(m[k])
    case _ => true
  }

  /** Drop null members of objects, at every depth. Nulls in arrays stay. */
  function Cleaned(v: Value): Value
    requires FloatFree(v)
  {
    match v
    case Arr(es) => Arr(seq(|es|, i requires 0 <= i < |es| => Cleaned(es[i])))
    case Obj(m) => Obj(map k | k in m && m[k] != Null :: Cleaned(m[k]))
    case _ => v
  }

  /** The cleaning pass; `None` where the source refuses a float. */
  function Clean(v: Value): Option<Value> {
    if FloatFree(v) then Some(Cleaned(v)) else None
  }

  /** No floats, and no null member in any object. */
  predicate IsClean(v: Value) {
    match v
    case Float(_) => false
    case Arr(es) => forall i :: 0 <= i < |es| ==> IsClean(es[i])
    case Obj(m) => forall k :: k in m ==> m[k] != Null && IsClean(m[k])
    case _ => true
  }

  lemma {:induction false} CleanedIsClean(v: Value)
    requires FloatFree(v)
    ensures IsClean(Cleaned(v)) && (Cleaned(v) == Null <==> v == Null)
  {
    match v
    case Arr(es) =>
      forall i | 0 <= i < |es| ensures IsClean(Cleaned(es[i])) {
        CleanedIsClean(es[i]);
      }
    case Obj(m) =>
      forall k | k in m && m[k] != Null ensures Cleaned(m[k]) != Null && IsClean(Cleaned(m[k])) {
        CleanedIsClean(m[k]);
      }
    case _ =>
  }

  lemma {:induction false} CleanIsFixed(v: Value)
    requires IsClean(v)
    ensures FloatFree(v) && Cleaned(v) == v
  {
    match v
    case Arr(es) =>
      forall i | 0 <= i < |es| ensures FloatFree(es[i]) && Cleaned(es[i]) == es[i] {
        CleanIsFixed(es[i]);
      }
    case Obj(m) =>
      forall k | k in m ensures FloatFree(m[k]) && Cleaned(m[k]) == m[k] {
        CleanIsFixed(m[k]);
      }
    case _ =>
  }

  /** Cleaning twice is cleaning once, and what is clean is what cleaning leaves alone. */
  lemma {:induction false} CleanIdempotent(v: Value)
    requires FloatFree(v)
    ensures Clean(Cleaned(v)) == Some(Cleaned(v))
    ensures IsClean(v) <==> Cleaned(v) == v
  {
    CleanedIsClean(v);
    CleanIsFixed(Cleaned(v));
    if IsClean(v) {
      CleanIsFixed(v);
    }
  }

  /** Cleaning drops members of objects, but nothing from an array: a null keeps its place there. */
  lemma {:induction false} ArraysKeepNulls(es: seq<Value>, i: nat)
    requires FloatFree(Arr(es)) && i < |es|
    ensures var c := Cleaned(Arr(es)); c.Arr? && |c.elems| == |es| && (c.elems[i] == Null <==> es[i] == Null)
  {
    CleanedIsClean(es[i]);
  }

  // ---- null members do not matter ------------------------------------------

  datatype Step = Member(k: string) | Index(i: nat)

  /** Give the object at the end of `path` a further member, which is null. */
  function AddNull(v: Value, path: seq<Step>, key: string): Value
    decreases |path|
  {
    if path == [] then
      if v.Obj? && key !in v.members then Obj(v.members[key := Null]) else v
    else match path[0]
      case Member(k) =>
        if v.Obj? && k in v.members then Obj(v.members[k := AddNull(v.members[k], path[1..], key)]) else v
      case Index(i) =>
        if v.Arr? && i < |v.elems| then Arr(v.elems[i := AddNull(v.elems[i], path[1..], key)]) else v
  }

  lemma {:induction false} AddNullFloatFree(v: Value, path: seq<Step>, key: string)
    ensures FloatFree(AddNull(v, path, key)) <==> FloatFree(v)
    ensures AddNull(v, path, key) == Null <==> v == Null
    decreases |path|
  {
    if path == [] {
      if v.Obj? && key !in v.members {
        var m := v.members[key := Null];
        assert forall k :: k in v.members ==> m[k] == v.members[k];
      }
    } else {
      match path[0]
      case Member(k) =>
        if v.Obj? && k in v.members {
          AddNullFloatFree(v.members[k], path[1..], key);
          var m := v.members[k := AddNull(v.members[k], path[1..], key)];
          assert forall j :: j in v.members && j != k ==> m[j] == v.members[j];
          assert m[k] == AddNull(v.members[k], path[1..], key);
        }
      case Index(i) =>
        if v.Arr? && i < |v.elems| {
          AddNullFloatFree(v.elems[i], path[1..], key);
          var es := v.elems[i := AddNull(v.elems[i], path[1..], key)];
          assert forall j :: 0 <= j < |es| && j != i ==> es[j] == v.elems[j];
          assert es[i] == AddNull(v.elems[i], path[1..], key);
        }
    }
  }

  /** Adding a null member anywhere leaves the cleaned value unchanged. */
  lemma {:induction false} AddNullCleaned(v: Value, path: seq<Step>, key: string)
    requires FloatFree(v)
    ensures Clean(AddNull(v, path, key)) == Clean(v)
    decreases |path|
  {
    AddNullFloatFree(v, path, key);
    if path == [] {
      if v.Obj? && key !in v.members {
        assert Cleaned(Obj(v.members[key := Null])).members == Cleaned(v).members;
      }
    } else {
      match path[0]
      case Member(k) =>
        if v.Obj? && k in v.members {
          AddNullCleaned(v.members[k], path[1..], key);
          AddNullFloatFree(v.members[k], path[1..], key);
          assert Cleaned(AddNull(v, path, key)).members == Cleaned(v).members;
        }
      case Index(i) =>
        if v.Arr? && i < |v.elems| {
          AddNullCleaned(v.elems[i], path[1..], key);
          assert Cleaned(AddNull(v, path, key)).elems == Cleaned(v).elems;
        }
    }
  }
}
