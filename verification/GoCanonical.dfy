/**
 The Go port of canonical serialization: one pass that drops, sorts, escapes
 and encodes as it goes, comparing keys by their bytes. It produces the same
 bytes as cleaning, printing and encoding.
 */
module GoCanonical {
  import opened Prelude
  import opened Json
  import opened Utf8
  import opened Canonical

  // ---- sorting keys by their bytes -----------------------------------------

  /** There is one way to sort a set of keys. */
  lemma {:induction false} SortedUnique(ks: set<string>, r: seq<string>)
    requires Increasing(r) && forall k :: k in r <==> k in ks
    ensures r == SortedKeys(ks)
    decreases |r|
  {
    if r == [] {
      assert ks == {};
    } else {
      FirstIsLeast(ks, r);
      RestOfSorted(ks, r);
      SortedUnique(ks - {r[0]}, r[1..]);
      assert r == [r[0]] + r[1..];
    }
  }

  lemma {:induction false} FirstIsLeast(ks: set<string>, r: seq<string>)
    requires r != [] && Increasing(r) && forall k :: k in r <==> k in ks
    ensures ks != {} && Least(ks) == r[0]
  {
    assert r[0] in ks;
    forall j | j in ks && j != r[0] ensures StringLess(r[0], j) {
      assert j in r;
    }
    LeastUnique(ks, Least(ks), r[0]);
  }

  lemma {:induction false} RestOfSorted(ks: set<string>, r: seq<string>)
    requires r != [] && Increasing(r) && forall k :: k in r <==> k in ks
    ensures Increasing(r[1..]) && forall k :: k in r[1..] <==> k in ks - {r[0]}
  {
    var rest := r[1..];
    forall k | k in ks - {r[0]} ensures k in rest {
      var i :| 0 <= i < |r| && r[i] == k;
      assert rest[i - 1] == k;
    }
    forall k | k in rest ensures k in ks - {r[0]} {
      var i :| 0 <= i < |rest| && rest[i] == k;
      assert rest[i] == r[i + 1] && StringLess(r[0], r[i + 1]);
      LessIrreflexive(k);
    }
  }

  /** Put a key where it belongs among sorted ones. */
  method InsertKey(r: seq<string>, k: string) returns (s: seq<string>)
    requires Increasing(r) && k !in r
    ensures Increasing(s) && forall j :: j in s <==> j in r || j == k
  {
    var i := 0;
    while i < |r| && BytesLess(Encode(r[i]), Encode(k))
      invariant 0 <= i <= |r|
      invariant forall j :: 0 <= j < i ==> StringLess(r[j], k)
    {
      OrderAgrees(r[i], k);
      i := i + 1;
    }
    if i < |r| {
      OrderAgrees(r[i], k);
      LessTotal(r[i], k);
    }
    s := r[..i] + [k] + r[i..];
    InsertIncreasing(r, k, i);
  }

  lemma InsertIncreasing(r: seq<string>, k: string, i: nat)
    requires Increasing(r) && i <= |r|
    requires forall j :: 0 <= j < i ==> StringLess(r[j], k)
    requires i < |r| ==> StringLess(k, r[i])
    ensures Increasing(r[..i] + [k] + r[i..])
  {
    forall j | i <= j < |r| ensures StringLess(k, r[j]) {
      if i < j {
        LessTransitive(k, r[i], r[j]);
      }
    }
    var s := r[..i] + [k] + r[i..];
    forall a, b | 0 <= a < b < |s| ensures StringLess(s[a], s[b]) {
      assert s[a] == if a < i then r[a] else if a == i then k else r[a - 1];
      assert s[b] == if b < i then r[b] else if b == i then k else r[b - 1];
    }
  }

  /** The keys of the members that are not nil, in byte order. The map hands them out in any order. */
  method KeysInOrder(m: map<string, Value>) returns (keys: seq<string>)
    ensures keys == SortedKeys(set k | k in m && m[k] != Null)
    ensures forall k :: k in keys <==> k in m && m[k] != Null
  {
    keys := [];
    var todo := m.Keys;
    while todo != {}
      invariant todo <= m.Keys && Increasing(keys)
      invariant forall k :: k in keys <==> k in m && k !in todo && m[k] != Null
      decreases |todo|
    {
      var k :| k in todo;
      if m[k] != Null {
        keys := InsertKey(keys, k);
      }
      todo := todo - {k};
    }
    SortedUnique((set k | k in m && m[k] != Null), keys);
  }

  // ---- the bytes of appended texts -----------------------------------------

  lemma Encode3(a: string, b: string, c: string)
    ensures Encode(a + b + c) == Encode(a) + Encode(b) + Encode(c)
  {
    EncodeConcat(a + b, c);
    EncodeConcat(a, b);
  }

  lemma Gather(before: Bytes, a: Bytes, b: Bytes, c: Bytes)
    ensures before + (a + b + c) == before + a + b + c
  {
  }

  // ---- strings -------------------------------------------------------------

  /** Append a string literal to the builder `b`. */
  method EncodeString(b: Bytes, s: string) returns (r: Bytes)
    ensures r == b + Encode(Quote(s))
  {
    r := b + Encode("\"");
    ghost var all := r + Encode(Escape(s));
    assert s[0..] == s;
    for i := 0 to |s|
      invariant r + Encode(Escape(s[i..])) == all
    {
      LiteralStep(r, s, i);
      r := WriteRune(r, s[i]);
    }
    assert s[|s|..] == [] && r + [] == r;
    r := r + Encode("\"");
    LiteralEnd(b, s);
  }

  lemma LiteralStep(r: Bytes, s: string, i: nat)
    requires i < |s|
    ensures r + Encode(Escape(s[i..])) == r + Encode(EscapeChar(s[i])) + Encode(Escape(s[i + 1..]))
  {
    assert s[i..][0] == s[i] && s[i..][1..] == s[i + 1..];
    EncodeConcat(EscapeChar(s[i]), Escape(s[i + 1..]));
  }

  lemma LiteralEnd(b: Bytes, s: string)
    ensures b + Encode("\"") + Encode(Escape(s)) + Encode("\"") == b + Encode(Quote(s))
  {
    Encode3("\"", Escape(s), "\"");
    Gather(b, Encode("\""), Encode(Escape(s)), Encode("\""));
  }

  /** Append one rune of a string literal. */
  method WriteRune(b: Bytes, c: char) returns (r: Bytes)
    ensures r == b + Encode(EscapeChar(c))
  {
    if c == '\"' {
      r := b + Encode("\\\"");
    } else if c == '\\' {
      r := b + Encode("\\\\");
    } else if c as int == 8 {
      r := b + Encode("\\b");
    } else if c as int == 12 {
      r := b + Encode("\\f");
    } else if c == '\n' {
      r := b + Encode("\\n");
    } else if c == '\r' {
      r := b + Encode("\\r");
    } else if c == '\t' {
      r := b + Encode("\\t");
    } else if c as int < 0x20 {
      r := b + Encode(['\\', 'u', '0', '0', HexDigit(c as int / 16), HexDigit(c as int % 16)]);
    } else {
      r := b + Encode([c]);
    }
  }

  // ---- values --------------------------------------------------------------

  /** The value's text, or nothing when there is a float. */
  ghost function Text(v: Value): (t: Option<string>)
    ensures t.Some? <==> FloatFree(v)
    ensures CanonicalBytes(v) == match t case None => None case Some(s) => Some(Encode(s))
  {
    if FloatFree(v) then
      CleanedIsClean(v);
      Some(Dump(Cleaned(v)))
    else None
  }

  ghost function After(b: Bytes, t: Option<string>): Option<Bytes> {
    match t case None => None case Some(s) => Some(b + Encode(s))
  }

  /** Append the encoding of `v` to `b`; `None` on a float, as soon as one is met. */
  method EncodeValue(b: Bytes, v: Value) returns (r: Option<Bytes>)
    ensures r == After(b, Text(v))
    decreases v, 1
  {
    match v
    case Null => r := Some(b + Encode("null"));
    case Bool(x) =>
      if x {
        r := Some(b + Encode("true"));
      } else {
        r := Some(b + Encode("false"));
      }
    case Int(i) => r := Some(b + Encode(Decimal(i)));
    case Float(_) => r := None;
    case Str(s) =>
      var t := EncodeString(b, s);
      r := Some(t);
    case Arr(es) => r := EncodeArray(b, v);
    case Obj(m) => r := EncodeObject(b, v);
  }

  method EncodeArray(b: Bytes, v: Value) returns (r: Option<Bytes>)
    requires v.Arr?
    ensures r == After(b, Text(v))
    decreases v, 0
  {
    var es := v.elems;
    var out := b + Encode("[");
    if FloatFree(v) {
      ArrayStart(b, v);
    }
    for i := 0 to |es|
      invariant forall j :: 0 <= j < i ==> FloatFree(es[j])
      invariant FloatFree(v) ==> ArrayLeft(b, v, out, i)
    {
      ghost var before := out;
      if i > 0 {
        out := out + Encode(",");
      }
      if FloatFree(v) {
        ArrayStep(b, v, before, out, i);
      }
      var x := EncodeValue(out, es[i]);
      if x.None? {
        return None;
      }
      out := x.value;
    }
    return Some(out + Encode("]"));
  }

  /** Appending the elements that are left to `out` gives the whole. */
  ghost predicate ArrayLeft(b: Bytes, v: Value, out: Bytes, i: nat)
    requires v.Arr? && i <= |v.elems| && FloatFree(v)
  {
    CleanedIsClean(v);
    out + Encode(DumpElems(Cleaned(v), i)) == b + Encode(Dump(Cleaned(v)))
  }

  lemma {:induction false} ArrayStart(b: Bytes, v: Value)
    requires v.Arr? && FloatFree(v)
    ensures ArrayLeft(b, v, b + Encode("["), 0)
  {
    CleanedIsClean(v);
    Opening(b, "[", DumpElems(Cleaned(v), 0));
  }

  lemma Opening(b: Bytes, open: string, rest: string)
    ensures b + Encode(open) + Encode(rest) == b + Encode(open + rest)
  {
    EncodeConcat(open, rest);
  }

  lemma {:induction false} ArrayStep(b: Bytes, v: Value, before: Bytes, out: Bytes, i: nat)
    requires v.Arr? && i < |v.elems| && FloatFree(v) && ArrayLeft(b, v, before, i)
    requires out == if i > 0 then before + Encode(",") else before
    ensures ArrayLeft(b, v, out + Encode(Text(v.elems[i]).value), i + 1)
  {
    CleanedIsClean(v);
    var c := Cleaned(v);
    Regroup(before, i > 0, Dump(c.elems[i]), DumpElems(c, i + 1));
  }

  /** Writing an item, with the comma that goes before it, and then the rest. */
  lemma Regroup(before: Bytes, comma: bool, item: string, more: string)
    ensures before + Encode((if comma then "," else "") + item + more)
         == ((if comma then before + Encode(",") else before) + Encode(item)) + Encode(more)
  {
    var sep := if comma then "," else "";
    Encode3(sep, item, more);
    Gather(before, Encode(sep), Encode(item), Encode(more));
    assert before + [] == before;
  }

  method EncodeObject(b: Bytes, v: Value) returns (r: Option<Bytes>)
    requires v.Obj?
    ensures r == After(b, Text(v))
    decreases v, 0
  {
    var m := v.members;
    var keys := KeysInOrder(m);
    var out := b + Encode("{");
    if FloatFree(v) {
      ObjectStart(b, v, keys);
    }
    for i := 0 to |keys|
      invariant FreeUpTo(m, keys, i)
      invariant FloatFree(v) ==> ObjectLeft(b, v, keys, out, i)
    {
      assert keys[i] in keys;
      ghost var before := out;
      if i > 0 {
        out := out + Encode(",");
      }
      if FloatFree(v) {
        ObjectStep(b, v, keys, before, out, i);
      }
      var x := EncodeMember(out, keys[i], m[keys[i]]);
      if x.None? {
        return None;
      }
      out := x.value;
      FreeNext(m, keys, i);
    }
    AllFloatFree(v, keys);
    ObjectEnd(b, v, keys, out);
    return Some(out + Encode("}"));
  }

  method EncodeMember(b: Bytes, key: string, v: Value) returns (r: Option<Bytes>)
    ensures r == After(b + Encode(Quote(key)) + Encode(":"), Text(v))
    decreases v, 2
  {
    var out := EncodeString(b, key);
    r := EncodeValue(out + Encode(":"), v);
  }

  lemma ObjectEnd(b: Bytes, v: Value, keys: seq<string>, out: Bytes)
    requires v.Obj? && FloatFree(v)
    requires forall k :: k in keys ==> k in v.members && v.members[k] != Null
    requires ObjectLeft(b, v, keys, out, |keys|)
    ensures Some(out + Encode("}")) == After(b, Text(v))
  {
  }

  ghost predicate FreeUpTo(m: map<string, Value>, keys: seq<string>, i: nat) {
    i <= |keys| && forall j :: 0 <= j < i ==> keys[j] in m && FloatFree(m[keys[j]])
  }

  lemma FreeNext(m: map<string, Value>, keys: seq<string>, i: nat)
    requires FreeUpTo(m, keys, i) && i < |keys| && keys[i] in m && FloatFree(m[keys[i]])
    ensures FreeUpTo(m, keys, i + 1)
  {
  }

  lemma AllFloatFree(v: Value, keys: seq<string>)
    requires v.Obj? && FreeUpTo(v.members, keys, |keys|)
    requires forall k :: k in v.members && v.members[k] != Null ==> k in keys
    ensures FloatFree(v)
  {
  }

  /** Appending the members that are left to `out` gives the whole. */
  ghost predicate ObjectLeft(b: Bytes, v: Value, keys: seq<string>, out: Bytes, i: nat)
    requires v.Obj? && i <= |keys| && FloatFree(v)
    requires forall k :: k in keys ==> k in v.members && v.members[k] != Null
  {
    CleanedIsClean(v);
    out + Encode(DumpMembers(Cleaned(v), keys, i)) == b + Encode(Dump(Cleaned(v)))
  }

  lemma {:induction false} ObjectStart(b: Bytes, v: Value, keys: seq<string>)
    requires v.Obj? && FloatFree(v)
    requires keys == SortedKeys(set k | k in v.members && v.members[k] != Null)
    ensures forall k :: k in keys ==> k in v.members && v.members[k] != Null
    ensures ObjectLeft(b, v, keys, b + Encode("{"), 0)
  {
    CleanedIsClean(v);
    var c := Cleaned(v);
    assert c.members.Keys == set k | k in v.members && v.members[k] != Null;
    Opening(b, "{", DumpMembers(c, keys, 0));
  }

  lemma {:induction false} ObjectStep(b: Bytes, v: Value, keys: seq<string>, before: Bytes, out: Bytes, i: nat)
    requires v.Obj? && i < |keys| && FloatFree(v)
    requires forall k :: k in keys ==> k in v.members && v.members[k] != Null
    requires ObjectLeft(b, v, keys, before, i)
    requires out == if i > 0 then before + Encode(",") else before
    ensures keys[i] in keys
    ensures ObjectLeft(b, v, keys,
                       out + Encode(Quote(keys[i])) + Encode(":") + Encode(Text(v.members[keys[i]]).value), i + 1)
  {
    CleanedIsClean(v);
    assert keys[i] in keys;
    var c, k := Cleaned(v), keys[i];
    RegroupMember(before, i > 0, Quote(k), Dump(c.members[k]), DumpMembers(c, keys, i + 1));
  }

  lemma {:induction false} RegroupMember(before: Bytes, comma: bool, key: string, value: string, more: string)
    ensures before + Encode((if comma then "," else "") + key + ":" + value + more)
         == ((if comma then before + Encode(",") else before) + Encode(key) + Encode(":") + Encode(value)) + Encode(more)
  {
    var sep := if comma then "," else "";
    assert sep + key + ":" + value + more == sep + key + (":" + value + more);
    Regroup(before, comma, key, ":" + value + more);
    Encode3(":", value, more);
  }

  /** The two encoders agree on every value. */
  method CanonicalBytesGo(v: Value) returns (r: Option<Bytes>)
    ensures r == CanonicalBytes(v)
  {
    r := EncodeValue([], v);
    if r.Some? {
      assert [] + Encode(Text(v).value) == Encode(Text(v).value);
    }
  }
}
