/**
 Canonical serialization: clean, print with sorted keys and no whitespace,
 encode as UTF-8.
 */
module Canonical {
  import opened Prelude
  import opened Json
  import opened Utf8

  // ---- key order -----------------------------------------------------------

  lemma {:induction false} LessTotal(a: string, b: string)
    ensures a == b || StringLess(a, b) || StringLess(b, a)
    decreases |a|
  {
    if a != [] && b != [] && a[0] == b[0] {
      LessTotal(a[1..], b[1..]);
      assert a == [a[0]] + a[1..] && b == [b[0]] + b[1..];
    }
  }

  lemma {:induction false} LessTransitive(a: string, b: string, c: string)
    requires StringLess(a, b) && StringLess(b, c)
    ensures StringLess(a, c)
    decreases |a|
  {
    if a != [] && a[0] == b[0] == c[0] {
      LessTransitive(a[1..], b[1..], c[1..]);
    }
  }

  lemma {:induction false} LessIrreflexive(a: string)
    ensures !StringLess(a, a)
    decreases |a|
  {
    if a != [] {
      LessIrreflexive(a[1..]);
    }
  }

  predicate IsLeast(k: string, ks: set<string>) {
    k in ks && forall j :: j in ks && j != k ==> StringLess(k, j)
  }

  lemma {:induction false} LeastExists(ks: set<string>) returns (k: string)
    requires ks != {}
    ensures IsLeast(k, ks)
    decreases |ks|
  {
    var x :| x in ks;
    if ks == {x} {
      k := x;
    } else {
      var y := LeastExists(ks - {x});
      LessTotal(x, y);
      k := if StringLess(x, y) then x else y;
      forall j | j in ks && j != k ensures StringLess(k, j) {
        if k == x && j != y {
          LessTransitive(x, y, j);
        }
      }
    }
  }

  lemma LeastUnique(ks: set<string>, a: string, b: string)
    requires IsLeast(a, ks) && IsLeast(b, ks)
    ensures a == b
  {
    if a != b {
      LessTransitive(a, b, a);
      LessIrreflexive(a);
    }
  }

  function Least(ks: set<string>): (k: string)
    requires ks != {}
    ensures IsLeast(k, ks)
  {
    assert exists k :: k in ks && IsLeast(k, ks) by {
      var k := LeastExists(ks);
    }
    assert forall a, b :: IsLeast(a, ks) && IsLeast(b, ks) ==> a == b by {
      forall a, b | IsLeast(a, ks) && IsLeast(b, ks) ensures a == b {
        LeastUnique(ks, a, b);
      }
    }
    var k :| k in ks && IsLeast(k, ks);
    k
  }

  /** Strictly increasing in code-point order. */
  predicate Increasing(r: seq<string>) {
    forall i, j :: 0 <= i < j < |r| ==> StringLess(r[i], r[j])
  }

  /** The keys in code-point order. */
  function SortedKeys(ks: set<string>): (r: seq<string>)
    ensures Increasing(r) && forall k :: k in r <==> k in ks
    decreases |ks|
  {
    if ks == {} then []
    else
      var least, rest := Least(ks), SortedKeys(ks - {Least(ks)});
      assert forall i :: 0 <= i < |rest| ==> StringLess(least, rest[i]) by {
        forall i | 0 <= i < |rest| ensures StringLess(least, rest[i]) {
          assert rest[i] in rest;
        }
      }
      [least] + rest
  }

  // ---- printing ------------------------------------------------------------

  /** Hexadecimal digits are written in lower case. */
  function HexDigit(n: nat): (d: char)
    requires n < 16
    ensures n < 10 ==> '0' <= d <= '9' && d as int == '0' as int + n
    ensures n >= 10 ==> 'a' <= d <= 'f' && d as int == 'a' as int + n - 10
  {
    "0123456789abcdef"[n]
  }

  /** One character of a string literal, as section 3.2.2.2 of RFC 8785 has it. */
  function EscapeChar(c: char): string {
    if c == '\"' then "\\\""
    else if c == '\\' then "\\\\"
    else if c as int == 8 then "\\b"
    else if c as int == 12 then "\\f"
    else if c == '\n' then "\\n"
    else if c == '\r' then "\\r"
    else if c == '\t' then "\\t"
    else if c as int < 32 then ['\\', 'u', '0', '0', HexDigit(c as int / 16), HexDigit(c as int % 16)]
    else [c]
  }

  function Escape(s: string): string {
    if s == [] then [] else EscapeChar(s[0]) + Escape(s[1..])
  }

  function Quote(s: string): string {
    "\"" + Escape(s) + "\""
  }

  function Digit(n: nat): char
    requires n < 10
  {
    ('0' as int + n) as char
  }

  function Digits(n: nat): string {
    if n < 10 then [Digit(n)] else Digits(n / 10) + [Digit(n % 10)]
  }

  function Decimal(i: int): string {
    if i < 0 then "-" + Digits(-i) else Digits(i)
  }

  /** The text of a value without floats. */
  function Dump(v: Value): string
    requires IsClean(v)
    decreases v, 1
  {
    match v
    case Null => "null"
    case Bool(b) => if b then "true" else "false"
    case Int(i) => Decimal(i)
    case Str(s) => Quote(s)
    case Arr(es) => "[" + DumpElems(v, 0)
    case Obj(m) => "{" + DumpMembers(v, SortedKeys(m.Keys), 0)
  }

  /** The elements from the `i`-th on, with the closing bracket. */
  function DumpElems(v: Value, i: nat): string
    requires IsClean(v) && v.Arr? && i <= |v.elems|
    decreases v, 0, |v.elems| - i
  {
    if i == |v.elems| then "]"
    else (if i > 0 then "," else "") + Dump(v.elems[i]) + DumpElems(v, i + 1)
  }

  /** The members from the `i`-th key on, with the closing brace. */
  function DumpMembers(v: Value, keys: seq<string>, i: nat): string
    requires IsClean(v) && v.Obj? && i <= |keys| && forall k :: k in keys ==> k in v.members
    decreases v, 0, |keys| - i
  {
    if i == |keys| then "}"
    else (if i > 0 then "," else "") + Quote(keys[i]) + ":" + Dump(v.members[keys[i]])
         + DumpMembers(v, keys, i + 1)
  }

  /** `None` where the source refuses a float. */
  function CanonicalBytes(v: Value): Option<Bytes> {
    if FloatFree(v) then
      CleanedIsClean(v);
      Some(Encode(Dump(Cleaned(v))))
    else None
  }
}
