/**
 The canonical text is a JSON text of its value, in which the names of every
 object are in code-point order.
 */
module CanonicalText {
  import opened Prelude
  import opened Json
  import opened Utf8
  import opened Canonical
  import opened JsonText

  function PlainForm(c: char): Form {
    var n := c as int;
    if c == '\"' || c == '\\' then Short(c)
    else if n == 8 then Short('b')
    else if n == 12 then Short('f')
    else if c == '\n' then Short('n')
    else if c == '\r' then Short('r')
    else if c == '\t' then Short('t')
    else if n < 32 then Unit(['0', '0', HexDigit(n / 16), HexDigit(n % 16)])
    else Raw(c)
  }

  lemma {:induction false} PlainFormOk(c: char)
    ensures OkForm(PlainForm(c)) && CharOf(PlainForm(c)) == c && FormText(PlainForm(c)) == EscapeChar(c)
  {
    var n := c as int;
    if PlainForm(c).Unit? {
      PlainUnit(n, ['0', '0', HexDigit(n / 16), HexDigit(n % 16)]);
    }
  }

  lemma {:induction false} PlainUnit(n: nat, h: seq<char>)
    requires n < 32 && h == ['0', '0', HexDigit(n / 16), HexDigit(n % 16)]
    ensures FourHex(h) && Unit16(h) == n
    ensures "\\u" + h == ['\\', 'u', '0', '0', HexDigit(n / 16), HexDigit(n % 16)]
  {
    assert HexOf(h[0]) == 0 && HexOf(h[1]) == 0 && HexOf(h[2]) == n / 16 && HexOf(h[3]) == n % 16;
  }

  function PlainForms(s: string): seq<Form> {
    if s == [] then [] else [PlainForm(s[0])] + PlainForms(s[1..])
  }

  lemma {:induction false} FirstForm(f: Form, fs: seq<Form>)
    requires OkForm(f) && OkForms(fs)
    ensures OkForms([f] + fs) && StringOf([f] + fs) == [CharOf(f)] + StringOf(fs)
    ensures FormsText([f] + fs) == FormText(f) + FormsText(fs)
  {
    var all := [f] + fs;
    assert all[0] == f && all[1..] == fs;
  }

  lemma {:induction false} PlainFormsOk(s: string)
    ensures OkForms(PlainForms(s)) && StringOf(PlainForms(s)) == s && FormsText(PlainForms(s)) == Escape(s)
  {
    if s != [] {
      PlainFormOk(s[0]);
      PlainFormsOk(s[1..]);
      FirstForm(PlainForm(s[0]), PlainForms(s[1..]));
      assert s == [s[0]] + s[1..];
    }
  }

  function PlainDigits(n: nat): (ds: seq<nat>)
    ensures ds != [] && forall i :: 0 <= i < |ds| ==> ds[i] < 10
  {
    if n < 10 then [n] else PlainDigits(n / 10) + [n % 10]
  }

  lemma {:induction false} PlainDigitsOk(n: nat)
    ensures OkDigits(PlainDigits(n)) && (n > 0 ==> PlainDigits(n)[0] != 0)
    ensures NatOf(PlainDigits(n)) == n && DigitsText(PlainDigits(n)) == Digits(n)
  {
    if n >= 10 {
      PlainDigitsOk(n / 10);
      assert PlainDigits(n)[..|PlainDigits(n)| - 1] == PlainDigits(n / 10);
    } else {
      assert NatOf([n][..0]) == 0;
    }
  }

  /** The canonical text, taken apart. */
  function Plain(v: Value): Doc
    requires IsClean(v)
    decreases v, 1
  {
    Doc("", PlainCore(v), "")
  }

  function PlainCore(v: Value): Core
    requires IsClean(v)
    decreases v, 0
  {
    match v
    case Null => Word(v)
    case Bool(_) => Word(v)
    case Int(i) => Number(i < 0, PlainDigits(if i < 0 then -i else i))
    case Str(s) => Literal(PlainForms(s))
    case Arr(es) => List(seq(|es|, i requires 0 <= i < |es| => Plain(es[i])), "")
    case Obj(m) =>
      var keys := SortedKeys(m.Keys);
      Members(seq(|keys|, i requires 0 <= i < |keys| => assert keys[i] in keys;
                                                         Entry("", PlainForms(keys[i]), "", Plain(m[keys[i]]))), "")
  }

  /** In every object the names of the members are in strictly increasing order. */
  ghost predicate NamesInOrder(d: Doc)
    requires OkDoc(d)
  {
    match d.core
    case List(items, _) => forall i :: 0 <= i < |items| ==> OkDoc(items[i]) && NamesInOrder(items[i])
    case Members(ms, _) =>
      && Increasing(Names(d.core))
      && forall i :: 0 <= i < |ms| ==> OkMember(ms[i]) && NamesInOrder(ms[i].value)
    case _ => true
  }

  /** The doc is a text of this value, canonical and in order. */
  ghost predicate Good(d: Doc, v: Value)
    requires IsClean(v)
  {
    OkDoc(d) && ValueOf(d) == v && Text(d) == Dump(v) && NamesInOrder(d)
  }

  /** The canonical text is a JSON text of its value, with the names in order in every object. */
  lemma {:induction false} CanonicalIsText(v: Value)
    requires IsClean(v)
    ensures Good(Plain(v), v)
    decreases v, 1
  {
    match v
    case Null => PlainWord(v);
    case Bool(_) => PlainWord(v);
    case Int(i) => PlainInt(v);
    case Str(s) => PlainString(v);
    case Arr(es) => PlainArray(v);
    case Obj(m) => PlainObject(v);
  }

  /** A text without whitespace around it. */
  lemma {:induction false} Bare(c: Core)
    requires OkCore(c)
    ensures var d := Doc("", c, ""); OkDoc(d) && Text(d) == CoreText(c) && ValueOf(d) == CoreValue(c)
  {
    var t := CoreText(c);
    assert "" + t + "" == t;
  }

  lemma {:induction false} PlainWord(v: Value)
    requires v.Null? || v.Bool?
    ensures IsClean(v) && Good(Plain(v), v)
  {
    Bare(Word(v));
  }

  lemma {:induction false} PlainInt(v: Value)
    requires v.Int?
    ensures IsClean(v) && Good(Plain(v), v)
  {
    PlainNumber(v);
    Bare(PlainCore(v));
  }

  lemma {:induction false} PlainNumber(v: Value)
    requires v.Int?
    ensures var c := PlainCore(v); c.Number? && OkCore(c) && CoreValue(c) == v && CoreText(c) == Dump(v)
  {
    NumberParts(v.i < 0, if v.i < 0 then -v.i else v.i);
  }

  lemma {:induction false} NumberParts(minus: bool, n: nat)
    ensures var c := Number(minus, PlainDigits(n));
      && OkCore(c) && CoreText(c) == (if minus then "-" else "") + Digits(n)
      && CoreValue(c) == Int(if minus then 0 - n else n)
  {
    PlainDigitsOk(n);
  }

  lemma {:induction false} PlainString(v: Value)
    requires v.Str?
    ensures IsClean(v) && Good(Plain(v), v)
  {
    PlainFormsOk(v.s);
    Bare(PlainCore(v));
  }

  lemma {:induction false} PlainArray(v: Value)
    requires IsClean(v) && v.Arr?
    ensures Good(Plain(v), v)
    decreases v, 0
  {
    var c := PlainCore(v);
    forall i | 0 <= i < |v.elems| ensures Good(c.items[i], v.elems[i]) {
      CanonicalIsText(v.elems[i]);
    }
    ItemsGood(v, c);
  }

  lemma {:induction false} ItemsGood(v: Value, c: Core)
    requires IsClean(v) && v.Arr? && c.List? && |c.items| == |v.elems| && c.gap == ""
    requires forall k :: 0 <= k < |v.elems| ==> Good(c.items[k], v.elems[k])
    ensures Good(Doc("", c, ""), v)
  {
    assert OkCore(c);
    assert CoreValue(c).elems == v.elems;
    PlainItems(v, c, 0);
    Bare(c);
  }

  lemma {:induction false} PlainItems(v: Value, c: Core, i: nat)
    requires IsClean(v) && v.Arr? && OkCore(c) && c.List? && |c.items| == |v.elems| && i <= |v.elems|
    requires forall k :: 0 <= k < |v.elems| ==> Good(c.items[k], v.elems[k])
    ensures Joined(ItemTexts(c), "]", i) == DumpElems(v, i)
    decreases |v.elems| - i
  {
    if i < |v.elems| {
      PlainItems(v, c, i + 1);
      assert Good(c.items[i], v.elems[i]);
    }
  }

  /** The member is that of the object with this name, taken apart. */
  ghost predicate GoodMember(m: Member, k: string, v: Value)
    requires IsClean(v)
  {
    && OkMember(m) && StringOf(m.key) == k && Good(m.value, v)
    && MemberText(m) == Quote(k) + ":" + Dump(v)
  }

  lemma {:induction false} PlainMember(k: string, v: Value)
    requires IsClean(v) && Good(Plain(v), v)
    ensures GoodMember(Entry("", PlainForms(k), "", Plain(v)), k, v)
  {
    PlainFormsOk(k);
  }

  ghost predicate GoodMembers(c: Core, v: Value, keys: seq<string>)
    requires IsClean(v) && v.Obj?
  {
    && c.Members? && |c.members| == |keys|
    && forall i :: 0 <= i < |keys| ==> keys[i] in v.members && GoodMember(c.members[i], keys[i], v.members[keys[i]])
  }

  lemma {:induction false} PlainObject(v: Value)
    requires IsClean(v) && v.Obj?
    ensures Good(Plain(v), v)
    decreases v, 0
  {
    var c, keys := PlainCore(v), SortedKeys(v.members.Keys);
    forall i | 0 <= i < |keys|
      ensures keys[i] in v.members && GoodMember(c.members[i], keys[i], v.members[keys[i]])
    {
      assert keys[i] in keys;
      CanonicalIsText(v.members[keys[i]]);
      PlainMember(keys[i], v.members[keys[i]]);
    }
    assert GoodMembers(c, v, keys);
    PlainMembers(c, v, keys);
  }

  lemma {:induction false} PlainMembers(c: Core, v: Value, keys: seq<string>)
    requires IsClean(v) && v.Obj? && GoodMembers(c, v, keys) && c.gap == ""
    requires keys == SortedKeys(v.members.Keys)
    ensures Good(Doc("", c, ""), v)
  {
    MembersOk(c, v, keys);
    MembersRead(c, v.members, keys, |keys|);
    AllTaken(v.members, keys);
    MembersPrinted(MemberTexts(c), v, keys, 0);
    Bare(c);
    assert NamesInOrder(Doc("", c, ""));
  }

  /** The members are those of the object with these keys. */
  ghost predicate Reads(c: Core, m: map<string, Value>, keys: seq<string>)
    requires OkCore(c) && c.Members? && |c.members| == |keys|
  {
    forall i :: 0 <= i < |keys| ==>
      keys[i] in m && OkMember(c.members[i]) && StringOf(c.members[i].key) == keys[i]
      && ValueOf(c.members[i].value) == m[keys[i]]
  }

  /** The texts are those of the members with these keys. */
  ghost predicate Prints(texts: seq<string>, v: Value, keys: seq<string>)
    requires IsClean(v) && v.Obj?
  {
    |texts| == |keys| && forall i :: 0 <= i < |keys| ==>
      keys[i] in v.members && texts[i] == Quote(keys[i]) + ":" + Dump(v.members[keys[i]])
  }

  lemma {:induction false} MembersOk(c: Core, v: Value, keys: seq<string>)
    requires IsClean(v) && v.Obj? && GoodMembers(c, v, keys) && c.gap == ""
    ensures OkCore(c) && Names(c) == keys && Reads(c, v.members, keys) && Prints(MemberTexts(c), v, keys)
    ensures forall i :: 0 <= i < |keys| ==> OkMember(c.members[i]) && NamesInOrder(c.members[i].value)
  {
    forall i | 0 <= i < |keys|
      ensures OkMember(c.members[i]) && NamesInOrder(c.members[i].value) && StringOf(c.members[i].key) == keys[i]
    {
      assert GoodMember(c.members[i], keys[i], v.members[keys[i]]);
    }
  }

  /** The members with the first `n` of these keys. */
  function Taken(m: map<string, Value>, keys: seq<string>, n: nat): map<string, Value>
    requires n <= |keys| && forall k :: k in keys ==> k in m
  {
    if n == 0 then map[] else Taken(m, keys, n - 1)[keys[n - 1] := m[keys[n - 1]]]
  }

  lemma {:induction false} TakenIs(m: map<string, Value>, keys: seq<string>, n: nat)
    requires n <= |keys| && forall k :: k in keys ==> k in m
    ensures Taken(m, keys, n).Keys == (set k | k in keys[..n])
    ensures forall k :: k in Taken(m, keys, n) ==> k in m && Taken(m, keys, n)[k] == m[k]
  {
    if n > 0 {
      TakenIs(m, keys, n - 1);
      assert keys[..n] == keys[..n - 1] + [keys[n - 1]];
    }
  }

  lemma {:induction false} AllTaken(m: map<string, Value>, keys: seq<string>)
    requires forall k :: k in keys <==> k in m
    ensures Taken(m, keys, |keys|) == m
  {
    TakenIs(m, keys, |keys|);
    assert keys[..|keys|] == keys;
  }

  lemma {:induction false} MembersRead(c: Core, m: map<string, Value>, keys: seq<string>, n: nat)
    requires OkCore(c) && c.Members? && |c.members| == |keys| && Reads(c, m, keys) && n <= |keys|
    requires forall k :: k in keys ==> k in m
    ensures MapOf(c, n) == Taken(m, keys, n)
    decreases n
  {
    if n > 0 {
      MembersRead(c, m, keys, n - 1);
    }
  }

  lemma {:induction false} MembersPrinted(texts: seq<string>, v: Value, keys: seq<string>, i: nat)
    requires IsClean(v) && v.Obj? && Prints(texts, v, keys) && i <= |keys|
    requires forall k :: k in keys ==> k in v.members
    ensures Joined(texts, "}", i) == DumpMembers(v, keys, i)
    decreases |keys| - i
  {
    if i < |keys| {
      MembersPrinted(texts, v, keys, i + 1);
      Regrouped(if i > 0 then "," else "", Quote(keys[i]), ":", Dump(v.members[keys[i]]), DumpMembers(v, keys, i + 1));
    }
  }

  lemma Regrouped(a: string, b: string, c: string, d: string, e: string)
    ensures a + (b + c + d) + e == a + b + c + d + e
  {
  }

  /** The canonical bytes of a value are those of a JSON text of the cleaned value, with the names in order. */
  lemma {:induction false} CanonicalBytesAreText(v: Value) returns (d: Doc)
    requires FloatFree(v)
    ensures OkDoc(d) && NamesInOrder(d) && ValueOf(d) == Cleaned(v)
    ensures CanonicalBytes(v) == Some(Encode(Text(d)))
  {
    CleanedIsClean(v);
    d := Plain(Cleaned(v));
    CanonicalIsText(Cleaned(v));
  }
}
