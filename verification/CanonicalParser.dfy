/** The inverse of the canonical printer. */
module CanonicalParser {
  import opened Prelude
  import opened Json
  import opened Utf8
  import opened Canonical

  /** What a parser found at the front of a text, and the text after it. */
  datatype Parsed<+T> = Fail | Got(value: T, rest: string)

  // ---- string literals -----------------------------------------------------

  function HexValue(c: char): nat {
    if '0' <= c <= '9' then c as int - '0' as int
    else if 'a' <= c <= 'f' then c as int - 'a' as int + 10
    else 16
  }

  /** The character after a backslash, and how many characters it took. */
  function Unescape(t: string): Option<(char, nat)> {
    if t == [] then None
    else if t[0] == '\"' || t[0] == '\\' then Some((t[0], 1))
    else if t[0] == 'b' then Some((8 as char, 1))
    else if t[0] == 'f' then Some((12 as char, 1))
    else if t[0] == 'n' then Some(('\n', 1))
    else if t[0] == 'r' then Some(('\r', 1))
    else if t[0] == 't' then Some(('\t', 1))
    else if "u00" <= t && |t| >= 5 && HexValue(t[3]) < 2 && HexValue(t[4]) < 16 then
      Some(((HexValue(t[3]) * 16 + HexValue(t[4])) as char, 5))
    else None
  }

  /** The rest of a string literal, up to its closing quote; control characters have to be escaped. */
  function ParseChars(t: string): (p: Parsed<string>)
    ensures p.Got? ==> |p.rest| < |t|
    decreases |t|
  {
    if t == [] then Fail
    else if t[0] == '\"' then Got([], t[1..])
    else if t[0] == '\\' then
      match Unescape(t[1..])
      case None => Fail
      case Some((c, n)) =>
        if 1 + n > |t| then Fail
        else
          match ParseChars(t[1 + n..])
          case Fail => Fail
          case Got(s, rest) => Got([c] + s, rest)
    else if t[0] as int < 32 then Fail
    else
      match ParseChars(t[1..])
      case Fail => Fail
      case Got(s, rest) => Got([t[0]] + s, rest)
  }

  lemma {:induction false} UnescapeEscape(c: char, t: string)
    requires |EscapeChar(c)| > 1
    ensures var e := EscapeChar(c);
      e[0] == '\\' && Unescape(e[1..] + t) == Some((c, |e| - 1))
  {
    var e := EscapeChar(c);
    var n := c as int;
    if |e| == 6 {
      assert e[1..] + t == ['u', '0', '0', HexDigit(n / 16), HexDigit(n % 16)] + t;
      assert "u00" <= e[1..] + t;
      assert HexValue(HexDigit(n / 16)) == n / 16;
      assert HexValue(HexDigit(n % 16)) == n % 16;
    }
  }

  lemma CharsEscaped(t: string, c: char, n: nat, s: string, rest: string)
    requires 1 + n <= |t| && t[0] == '\\' && Unescape(t[1..]) == Some((c, n))
    requires ParseChars(t[1 + n..]) == Got(s, rest)
    ensures ParseChars(t) == Got([c] + s, rest)
  {
  }

  lemma CharsPlain(t: string, s: string, rest: string)
    requires t != [] && t[0] != '\"' && t[0] != '\\' && t[0] as int >= 32 && ParseChars(t[1..]) == Got(s, rest)
    ensures ParseChars(t) == Got([t[0]] + s, rest)
  {
  }

  lemma {:induction false} ParseEscape(s: string, rest: string)
    ensures ParseChars(Escape(s) + (['\"'] + rest)) == Got(s, rest)
    decreases |s|
  {
    if s == [] {
      assert Escape(s) + (['\"'] + rest) == ['\"'] + rest;
      assert (['\"'] + rest)[1..] == rest;
    } else {
      var tail := Escape(s[1..]) + (['\"'] + rest);
      ParseEscape(s[1..], rest);
      EscapeStep(s[0], s[1..], tail, rest);
      Assoc(EscapeChar(s[0]), Escape(s[1..]), ['\"'] + rest);
      assert s == [s[0]] + s[1..];
    }
  }

  lemma Assoc(a: string, b: string, c: string)
    ensures (a + b) + c == a + (b + c)
  {
  }

  lemma {:induction false} EscapeStep(c: char, s: string, t: string, rest: string)
    requires ParseChars(t) == Got(s, rest)
    ensures ParseChars(EscapeChar(c) + t) == Got([c] + s, rest)
  {
    var e := EscapeChar(c);
    var text := e + t;
    if |e| > 1 {
      UnescapeEscape(c, t);
      assert text[1..] == e[1..] + t;
      assert text[|e|..] == t;
      CharsEscaped(text, c, |e| - 1, s, rest);
    } else {
      assert text[1..] == t;
      CharsPlain(text, s, rest);
    }
  }

  /** No raw control character is in a literal. */
  lemma {:induction false} NoRawControl(s: string)
    ensures forall i :: 0 <= i < |Escape(s)| ==> Escape(s)[i] as int >= 32
  {
    if s != [] {
      NoRawControl(s[1..]);
    }
  }

  /** What stands for a character takes as many characters as the printed form, or more. */
  lemma {:induction false} NoShorterEscape(t: string, c: char, n: nat)
    requires Unescape(t) == Some((c, n))
    ensures |EscapeChar(c)| <= 1 + n
  {
  }

  /** No literal that is read as this string is shorter than the printed one. */
  lemma {:induction false} NoShorterLiteral(t: string)
    requires ParseChars(t).Got?
    ensures |Escape(ParseChars(t).value)| + 1 + |ParseChars(t).rest| <= |t|
    decreases |t|
  {
    if t[0] == '\\' {
      var (c, n) := Unescape(t[1..]).value;
      NoShorterEscape(t[1..], c, n);
      NoShorterLiteral(t[1 + n..]);
      EscapeFirst(c, ParseChars(t[1 + n..]).value);
    } else if t[0] != '\"' {
      NoShorterLiteral(t[1..]);
      EscapeFirst(t[0], ParseChars(t[1..]).value);
    }
  }

  lemma {:induction false} EscapeFirst(c: char, s: string)
    ensures |Escape([c] + s)| == |EscapeChar(c)| + |Escape(s)|
  {
    assert ([c] + s)[1..] == s;
  }

  // ---- integers ------------------------------------------------------------

  predicate IsDigit(c: char) {
    '0' <= c <= '9'
  }

  /** Read digits for as long as there are any, after having read `acc`. */
  function ParseDigits(t: string, acc: nat): (p: Parsed<nat>)
    ensures p.Got? && |p.rest| <= |t|
    decreases |t|
  {
    if t != [] && IsDigit(t[0]) then ParseDigits(t[1..], acc * 10 + (t[0] as int - '0' as int))
    else Got(acc, t)
  }

  lemma {:induction false} ParseDigitsOf(n: nat, t: string)
    ensures ParseDigits(Digits(n) + t, 0) == ParseDigits(t, n)
    ensures Digits(n) != [] && IsDigit(Digits(n)[0])
    decreases n
  {
    if n < 10 {
      DigitStep(n, t, 0);
    } else {
      var d := Digit(n % 10);
      ParseDigitsOf(n / 10, [d] + t);
      Assoc(Digits(n / 10), [d], t);
      DigitStep(n % 10, t, n / 10);
    }
  }

  lemma {:induction false} DigitStep(d: nat, t: string, acc: nat)
    requires d < 10
    ensures IsDigit(Digit(d)) && ParseDigits([Digit(d)] + t, acc) == ParseDigits(t, acc * 10 + d)
  {
    assert ([Digit(d)] + t)[1..] == t;
  }

  // ---- values --------------------------------------------------------------

  function ParseValue(t: string): (p: Parsed<Value>)
    ensures p.Got? ==> |p.rest| < |t|
    decreases |t|, 1
  {
    if t == [] then Fail
    else if t[0] == '\"' then
      match ParseChars(t[1..])
      case Fail => Fail
      case Got(s, rest) => Got(Str(s), rest)
    else if t[0] == '[' then
      match ParseElems(t[1..], true)
      case Fail => Fail
      case Got(es, rest) => Got(Arr(es), rest)
    else if t[0] == '{' then
      match ParseMembers(t[1..], true)
      case Fail => Fail
      case Got(m, rest) => Got(Obj(m), rest)
    else if t[0] == 'n' || t[0] == 't' || t[0] == 'f' then ParseWord(t)
    else ParseNumber(t)
  }

  function ParseWord(t: string): (p: Parsed<Value>)
    ensures p.Got? ==> |p.rest| < |t|
  {
    if "null" <= t then Got(Null, t[4..])
    else if "true" <= t then Got(Bool(true), t[4..])
    else if "false" <= t then Got(Bool(false), t[5..])
    else Fail
  }

  function ParseNumber(t: string): (p: Parsed<Value>)
    ensures p.Got? ==> |p.rest| < |t|
  {
    if t == [] then Fail
    else if t[0] == '-' && |t| > 1 && IsDigit(t[1]) then
      var p := ParseDigits(t[1..], 0);
      var n: int := p.value;
      Got(Int(-n), p.rest)
    else if IsDigit(t[0]) then
      var p := ParseDigits(t[1..], t[0] as int - '0' as int);
      Got(Int(p.value), p.rest)
    else Fail
  }

  /** Drop the comma that precedes every item but the first. */
  function SkipComma(t: string, first: bool): (p: Parsed<()>)
    ensures p.Got? ==> |p.rest| <= |t|
  {
    if first then Got((), t)
    else if t != [] && t[0] == ',' then Got((), t[1..])
    else Fail
  }

  function ParseElems(t: string, first: bool): (p: Parsed<seq<Value>>)
    ensures p.Got? ==> |p.rest| < |t|
    decreases |t|, 2
  {
    if t != [] && t[0] == ']' then Got([], t[1..])
    else
      match SkipComma(t, first)
      case Fail => Fail
      case Got(_, t1) =>
        match ParseValue(t1)
        case Fail => Fail
        case Got(v, t2) =>
          match ParseElems(t2, false)
          case Fail => Fail
          case Got(vs, rest) => Got([v] + vs, rest)
  }

  function ParseKey(t: string): (p: Parsed<string>)
    ensures p.Got? ==> |p.rest| < |t|
  {
    if t == [] || t[0] != '\"' then Fail
    else
      match ParseChars(t[1..])
      case Fail => Fail
      case Got(k, rest) => if rest == [] || rest[0] != ':' then Fail else Got(k, rest[1..])
  }

  function ParseMembers(t: string, first: bool): (p: Parsed<map<string, Value>>)
    ensures p.Got? ==> |p.rest| < |t|
    decreases |t|, 2
  {
    if t != [] && t[0] == '}' then Got(map[], t[1..])
    else
      match SkipComma(t, first)
      case Fail => Fail
      case Got(_, t1) =>
        match ParseKey(t1)
        case Fail => Fail
        case Got(k, t2) =>
          match ParseValue(t2)
          case Fail => Fail
          case Got(v, t3) =>
            match ParseMembers(t3, false)
            case Fail => Fail
            case Got(m, rest) => Got(m[k := v], rest)
  }

  function ParseText(t: string): Option<Value> {
    match ParseValue(t)
    case Fail => None
    case Got(v, rest) => if rest == [] then Some(v) else None
  }

  function ParseBytes(bs: Bytes): Option<Value> {
    match Decode(bs)
    case None => None
    case Some(t) => ParseText(t)
  }

  // ---- the round trip ------------------------------------------------------

  /** The text after a value does not continue a number. */
  predicate Ends(rest: string) {
    rest == [] || !IsDigit(rest[0])
  }

  lemma ParseNat(n: nat, rest: string)
    requires Ends(rest)
    ensures var t := Digits(n) + rest;
      t != [] && IsDigit(t[0]) && ParseDigits(t, 0) == Got(n, rest)
  {
    ParseDigitsOf(n, rest);
  }

  lemma ParseInt(i: int, rest: string)
    requires Ends(rest)
    ensures ParseValue(Decimal(i) + rest) == Got(Int(i), rest)
  {
    if i < 0 {
      ParseNat(-i, rest);
      Opened("-", Digits(-i), rest);
    } else {
      ParseNat(i, rest);
    }
  }

  lemma ParseStr(s: string, rest: string)
    ensures ParseValue(Quote(s) + rest) == Got(Str(s), rest)
  {
    ParseEscape(s, rest);
    QuoteOpens(s, rest);
    ValueOfChars(Quote(s) + rest, s, rest);
  }

  lemma {:induction false} QuoteOpens(s: string, rest: string)
    ensures var t := Quote(s) + rest; t != [] && t[0] == '\"' && t[1..] == Escape(s) + (['\"'] + rest)
  {
    var t := Quote(s) + rest;
    assert t[1..] == Escape(s) + (['\"'] + rest);
  }

  lemma ParseKeyOf(k: string, rest: string)
    ensures ParseKey(Quote(k) + ":" + rest) == Got(k, rest)
  {
    ParseEscape(k, ":" + rest);
    QuoteOpens(k, ":" + rest);
    Assoc(Quote(k), ":", rest);
    KeyOfChars(Quote(k) + (":" + rest), k, ":" + rest);
    assert (":" + rest)[1..] == rest;
  }

  /** A printed value does not begin with a closing bracket or a comma. */
  lemma DumpHead(v: Value)
    requires IsClean(v)
    ensures Dump(v) != [] && Dump(v)[0] != ']' && Dump(v)[0] != '}' && Dump(v)[0] != ','
  {
    if v.Int? {
      ParseDigitsOf(if v.i < 0 then -v.i else v.i, []);
    }
  }

  // one step of each parser, so that the proofs below need not unfold them

  lemma ValueOfChars(t: string, s: string, rest: string)
    requires t != [] && t[0] == '\"' && ParseChars(t[1..]) == Got(s, rest)
    ensures ParseValue(t) == Got(Str(s), rest)
  {
  }

  lemma KeyOfChars(t: string, k: string, colon: string)
    requires t != [] && t[0] == '\"' && ParseChars(t[1..]) == Got(k, colon) && colon != [] && colon[0] == ':'
    ensures ParseKey(t) == Got(k, colon[1..])
  {
  }

  lemma ValueOfElems(t: string, es: seq<Value>, rest: string)
    requires t != [] && t[0] == '[' && ParseElems(t[1..], true) == Got(es, rest)
    ensures ParseValue(t) == Got(Arr(es), rest)
  {
  }

  lemma ValueOfMembers(t: string, m: map<string, Value>, rest: string)
    requires t != [] && t[0] == '{' && ParseMembers(t[1..], true) == Got(m, rest)
    ensures ParseValue(t) == Got(Obj(m), rest)
  {
  }

  lemma ElemsStep(t: string, first: bool, t1: string, v: Value, t2: string, vs: seq<Value>, rest: string)
    requires t != [] && t[0] != ']' && SkipComma(t, first) == Got((), t1)
    requires ParseValue(t1) == Got(v, t2) && ParseElems(t2, false) == Got(vs, rest)
    ensures ParseElems(t, first) == Got([v] + vs, rest)
  {
  }

  lemma MembersStep(t: string, first: bool, t1: string, k: string, t2: string, v: Value, t3: string,
                    m: map<string, Value>, rest: string)
    requires t != [] && t[0] != '}' && SkipComma(t, first) == Got((), t1)
    requires ParseKey(t1) == Got(k, t2) && ParseValue(t2) == Got(v, t3) && ParseMembers(t3, false) == Got(m, rest)
    ensures ParseMembers(t, first) == Got(m[k := v], rest)
  {
  }

  lemma {:induction false} ParseLiteral(v: Value, rest: string)
    requires v.Null? || v.Bool?
    ensures ParseValue(Dump(v) + rest) == Got(v, rest)
  {
    assert (Dump(v) + rest)[|Dump(v)|..] == rest;
  }

  lemma {:induction false} Opened(open: string, body: string, rest: string)
    requires |open| == 1
    ensures var t := open + body + rest; t != [] && t[0] == open[0] && t[1..] == body + rest
  {
    assert (open + body + rest)[1..] == body + rest;
  }

  /** Parsing a printed value gives the value back, whatever text follows, so long as it does not go on with a digit. */
  lemma {:induction false} ParseDump(v: Value, rest: string)
    requires IsClean(v) && Ends(rest)
    ensures ParseValue(Dump(v) + rest) == Got(v, rest)
    decreases v, 1
  {
    match v
    case Null => ParseLiteral(v, rest);
    case Bool(b) => ParseLiteral(v, rest);
    case Int(i) => ParseInt(i, rest);
    case Str(s) => ParseStr(s, rest);
    case Arr(es) =>
      ParseAllElems(v, rest);
      assert es[0..] == es;
      Opened("[", DumpElems(v, 0), rest);
      ValueOfElems(Dump(v) + rest, es, rest);
    case Obj(m) =>
      var keys := SortedKeys(m.Keys);
      ParseAllMembers(v, keys, rest);
      RestrictAll(m, keys);
      Opened("{", DumpMembers(v, keys, 0), rest);
      ValueOfMembers(Dump(v) + rest, m, rest);
  }

  lemma {:induction false} RestrictAll(m: map<string, Value>, keys: seq<string>)
    requires forall k :: k in m ==> k in keys
    ensures Restrict(m, keys[0..]) == m
  {
    assert keys[0..] == keys;
  }

  /** The printed elements from the `i`-th on are read back. */
  ghost predicate ElemsRead(v: Value, i: nat, first: bool, rest: string)
    requires IsClean(v) && v.Arr? && i <= |v.elems|
  {
    ParseElems(DumpElems(v, i) + rest, first) == Got(v.elems[i..], rest)
  }

  lemma {:induction false} ParseDumpElems(v: Value, i: nat, rest: string)
    requires IsClean(v) && v.Arr? && 0 < i <= |v.elems|
    ensures ElemsRead(v, i, false, rest)
    decreases v, 0, |v.elems| - i + 1
  {
    if i < |v.elems| {
      ParseDumpElems(v, i + 1, rest);
      ParseDumpElem(v, i, false, rest);
    } else {
      ElemsNil(v, i, false, rest);
    }
  }

  lemma {:induction false} ParseAllElems(v: Value, rest: string)
    requires IsClean(v) && v.Arr?
    ensures ElemsRead(v, 0, true, rest)
    decreases v, 0, |v.elems| + 1
  {
    if v.elems == [] {
      ElemsNil(v, 0, true, rest);
    } else {
      ParseDumpElems(v, 1, rest);
      ParseDumpElem(v, 0, true, rest);
    }
  }

  lemma {:induction false} ParseDumpElem(v: Value, i: nat, first: bool, rest: string)
    requires IsClean(v) && v.Arr? && i < |v.elems| && first == (i == 0)
    requires ElemsRead(v, i + 1, false, rest)
    ensures ElemsRead(v, i, first, rest)
    decreases v, 0, 0
  {
    var after := DumpElems(v, i + 1) + rest;
    ElemsHead(v, i + 1);
    ParseDump(v.elems[i], after);
    ElemsCons(v, i, first, after, rest);
  }

  lemma ElemsNil(v: Value, i: nat, first: bool, rest: string)
    requires IsClean(v) && v.Arr? && i == |v.elems|
    ensures ElemsRead(v, i, first, rest)
  {
    ElemsEnd(rest);
    assert v.elems[i..] == [];
  }

  lemma {:induction false} ElemsEnd(rest: string)
    ensures forall first :: ParseElems("]" + rest, first) == Got([], rest)
  {
    assert ("]" + rest)[1..] == rest;
  }

  lemma {:induction false} MembersEnd(rest: string)
    ensures forall first :: ParseMembers("}" + rest, first) == Got(map[], rest)
  {
    assert ("}" + rest)[1..] == rest;
  }

  lemma ElemsCons(v: Value, i: nat, first: bool, after: string, rest: string)
    requires IsClean(v) && v.Arr? && i < |v.elems| && first == (i == 0) && after == DumpElems(v, i + 1) + rest
    requires ParseValue(Dump(v.elems[i]) + after) == Got(v.elems[i], after)
    requires ElemsRead(v, i + 1, false, rest)
    ensures ElemsRead(v, i, first, rest)
  {
    ElemsSplit(v, i, rest);
    assert v.elems[i..] == [v.elems[i]] + v.elems[i + 1..];
    ElemsStep(DumpElems(v, i) + rest, first, Dump(v.elems[i]) + after, v.elems[i], after, v.elems[i + 1..], rest);
  }

  lemma ElemsSplit(v: Value, i: nat, rest: string)
    requires IsClean(v) && v.Arr? && i < |v.elems|
    ensures var t := DumpElems(v, i) + rest;
      && t != [] && t[0] != ']'
      && SkipComma(t, i == 0) == Got((), Dump(v.elems[i]) + (DumpElems(v, i + 1) + rest))
  {
    DumpHead(v.elems[i]);
    ItemSplit(i == 0, Dump(v.elems[i]), DumpElems(v, i + 1), rest);
  }

  /** The text of one item of a list, taken apart. */
  lemma {:induction false} ItemSplit(first: bool, item: string, more: string, rest: string)
    requires item != []
    ensures var t := (if first then "" else ",") + item + more + rest;
      && t != [] && t[0] == (if first then item[0] else ',')
      && SkipComma(t, first) == Got((), item + (more + rest))
  {
    var t := (if first then "" else ",") + item + more + rest;
    if first {
      assert t == item + (more + rest);
    } else {
      assert t[1..] == item + (more + rest);
    }
  }

  lemma ElemsHead(v: Value, i: nat)
    requires IsClean(v) && v.Arr? && 0 < i <= |v.elems|
    ensures DumpElems(v, i) != [] && !IsDigit(DumpElems(v, i)[0])
  {
  }

  lemma MembersHead(v: Value, keys: seq<string>, i: nat)
    requires IsClean(v) && v.Obj? && 0 < i <= |keys| && forall k :: k in keys ==> k in v.members
    ensures DumpMembers(v, keys, i) != [] && !IsDigit(DumpMembers(v, keys, i)[0])
  {
  }

  ghost function Restrict(m: map<string, Value>, keys: seq<string>): map<string, Value> {
    map k | k in m && k in keys :: m[k]
  }

  /** The printed members from the `i`-th key on are read back. */
  ghost predicate MembersRead(v: Value, keys: seq<string>, i: nat, first: bool, rest: string)
    requires IsClean(v) && v.Obj? && i <= |keys| && forall k :: k in keys ==> k in v.members
  {
    ParseMembers(DumpMembers(v, keys, i) + rest, first) == Got(Restrict(v.members, keys[i..]), rest)
  }

  lemma {:induction false} ParseDumpMembers(v: Value, keys: seq<string>, i: nat, rest: string)
    requires IsClean(v) && v.Obj? && 0 < i <= |keys| && forall k :: k in keys ==> k in v.members
    ensures MembersRead(v, keys, i, false, rest)
    decreases v, 0, |keys| - i + 1
  {
    if i < |keys| {
      ParseDumpMembers(v, keys, i + 1, rest);
      ParseDumpMember(v, keys, i, false, rest);
    } else {
      MembersNil(v, keys, i, false, rest);
    }
  }

  lemma {:induction false} ParseAllMembers(v: Value, keys: seq<string>, rest: string)
    requires IsClean(v) && v.Obj? && forall k :: k in keys ==> k in v.members
    ensures MembersRead(v, keys, 0, true, rest)
    decreases v, 0, |keys| + 1
  {
    if keys == [] {
      MembersNil(v, keys, 0, true, rest);
    } else {
      ParseDumpMembers(v, keys, 1, rest);
      ParseDumpMember(v, keys, 0, true, rest);
    }
  }

  lemma {:induction false} ParseDumpMember(v: Value, keys: seq<string>, i: nat, first: bool, rest: string)
    requires IsClean(v) && v.Obj? && i < |keys| && forall k :: k in keys ==> k in v.members
    requires first == (i == 0)
    requires MembersRead(v, keys, i + 1, false, rest)
    ensures MembersRead(v, keys, i, first, rest)
    decreases v, 0, 0
  {
    var after := DumpMembers(v, keys, i + 1) + rest;
    NextMember(v, keys, i, rest);
    ParseDump(v.members[keys[i]], after);
    MembersCons(v, keys, i, first, after, rest);
  }

  lemma {:induction false} NextMember(v: Value, keys: seq<string>, i: nat, rest: string)
    requires IsClean(v) && v.Obj? && i < |keys| && forall k :: k in keys ==> k in v.members
    ensures keys[i] in v.members && IsClean(v.members[keys[i]]) && v.members[keys[i]] < v
    ensures Ends(DumpMembers(v, keys, i + 1) + rest)
  {
    assert keys[i] in keys;
    MembersHead(v, keys, i + 1);
  }

  lemma {:induction false} MembersNil(v: Value, keys: seq<string>, i: nat, first: bool, rest: string)
    requires IsClean(v) && v.Obj? && i == |keys| && forall k :: k in keys ==> k in v.members
    ensures MembersRead(v, keys, i, first, rest)
  {
    MembersEnd(rest);
    assert Restrict(v.members, keys[i..]) == map[];
  }

  lemma MembersCons(v: Value, keys: seq<string>, i: nat, first: bool, after: string, rest: string)
    requires IsClean(v) && v.Obj? && i < |keys| && forall k :: k in keys ==> k in v.members
    requires first == (i == 0) && after == DumpMembers(v, keys, i + 1) + rest
    requires ParseValue(Dump(v.members[keys[i]]) + after) == Got(v.members[keys[i]], after)
    requires MembersRead(v, keys, i + 1, false, rest)
    ensures MembersRead(v, keys, i, first, rest)
  {
    var k := keys[i];
    var t2 := Dump(v.members[k]) + after;
    ParseKeyOf(k, t2);
    MembersSplit(v, keys, i, rest);
    RestrictStep(v.members, keys, i);
    MembersStep(DumpMembers(v, keys, i) + rest, first, Quote(k) + ":" + t2, k, t2, v.members[k], after,
                Restrict(v.members, keys[i + 1..]), rest);
  }

  lemma {:induction false} RestrictStep(m: map<string, Value>, keys: seq<string>, i: nat)
    requires i < |keys| && keys[i] in m
    ensures Restrict(m, keys[i..]) == Restrict(m, keys[i + 1..])[keys[i] := m[keys[i]]]
  {
    assert keys[i..] == [keys[i]] + keys[i + 1..];
  }

  lemma MembersSplit(v: Value, keys: seq<string>, i: nat, rest: string)
    requires IsClean(v) && v.Obj? && i < |keys| && forall k :: k in keys ==> k in v.members
    ensures var t := DumpMembers(v, keys, i) + rest;
      var k := keys[i];
      && t != [] && t[0] != '}'
      && SkipComma(t, i == 0)
         == Got((), Quote(k) + ":" + (Dump(v.members[k]) + (DumpMembers(v, keys, i + 1) + rest)))
  {
    var k := keys[i];
    MemberText(i == 0, Quote(k), Dump(v.members[k]), DumpMembers(v, keys, i + 1), rest);
  }

  lemma {:induction false} MemberText(first: bool, key: string, value: string, more: string, rest: string)
    requires key != [] && key[0] == '\"'
    ensures var t := (if first then "" else ",") + key + ":" + value + more + rest;
      && t != [] && t[0] != '}'
      && SkipComma(t, first) == Got((), key + ":" + (value + (more + rest)))
  {
    var sep := if first then "" else ",";
    ItemSplit(first, key, ":" + value + more, rest);
    assert sep + key + ":" + value + more + rest == sep + key + (":" + value + more) + rest;
    assert key + ((":" + value + more) + rest) == key + ":" + (value + (more + rest));
  }

  /** Reading canonical bytes back gives the cleaned value. */
  lemma ParseCanonical(v: Value)
    requires FloatFree(v)
    ensures ParseBytes(CanonicalBytes(v).value) == Some(Cleaned(v))
  {
    CleanedIsClean(v);
    var text := Dump(Cleaned(v));
    DecodeEncode(text);
    ParseDump(Cleaned(v), []);
    assert text + [] == text;
  }

  /** Two values have the same canonical bytes exactly when they are equal after cleaning. */
  lemma CanonicalBytesExact(v: Value, w: Value)
    ensures CanonicalBytes(v).None? <==> !FloatFree(v)
    ensures FloatFree(v) && FloatFree(w) ==>
      (CanonicalBytes(v) == CanonicalBytes(w) <==> Cleaned(v) == Cleaned(w))
  {
    if FloatFree(v) && FloatFree(w) {
      ParseCanonical(v);
      ParseCanonical(w);
    }
  }
}
