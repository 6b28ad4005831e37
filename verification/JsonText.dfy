/**
 JSON texts as section 2 to section 7 of RFC 8259 have them, whitespace,
 escapes and order of members being free. Numbers with a fraction or an
 exponent are left out, since they read as floats.
 */
module JsonText {
  import opened Json
  import opened Canonical

  // ---- characters ----------------------------------------------------------

  /** How one character of a literal may be written. */
  datatype Form =
    | Raw(c: char)
    | Short(letter: char)                    // a backslash and a letter
    | Unit(h: seq<char>)                     // \u and four hexadecimal digits
    | Pair(hi: seq<char>, lo: seq<char>)     // two of these, for a character beyond U+FFFF

  function HexOf(c: char): nat {
    if '0' <= c <= '9' then c as int - '0' as int
    else if 'a' <= c <= 'f' then c as int - 'a' as int + 10
    else if 'A' <= c <= 'F' then c as int - 'A' as int + 10
    else 16
  }

  predicate FourHex(h: seq<char>) {
    |h| == 4 && forall i :: 0 <= i < 4 ==> HexOf(h[i]) < 16
  }

  function Unit16(h: seq<char>): nat
    requires FourHex(h)
  {
    HexOf(h[0]) * 4096 + HexOf(h[1]) * 256 + HexOf(h[2]) * 16 + HexOf(h[3])
  }

  predicate OkForm(f: Form) {
    match f
    case Raw(c) => c as int >= 0x20 && c != '\"' && c != '\\'
    case Short(l) => l in "\"\\/bfnrt"
    case Unit(h) => FourHex(h) && !(0xD800 <= Unit16(h) < 0xE000)
    case Pair(hi, lo) => FourHex(hi) && FourHex(lo) && 0xD800 <= Unit16(hi) < 0xDC00 <= Unit16(lo) < 0xE000
  }

  function CharOf(f: Form): char
    requires OkForm(f)
  {
    match f
    case Raw(c) => c
    case Short(l) =>
      if l == 'b' then 8 as char
      else if l == 'f' then 12 as char
      else if l == 'n' then '\n'
      else if l == 'r' then '\r'
      else if l == 't' then '\t'
      else l
    case Unit(h) => Unit16(h) as char
    case Pair(hi, lo) => (0x10000 + (Unit16(hi) - 0xD800) * 0x400 + (Unit16(lo) - 0xDC00)) as char
  }

  function FormText(f: Form): string {
    match f
    case Raw(c) => [c]
    case Short(l) => ['\\', l]
    case Unit(h) => "\\u" + h
    case Pair(hi, lo) => "\\u" + hi + "\\u" + lo
  }

  predicate OkForms(fs: seq<Form>) {
    forall i :: 0 <= i < |fs| ==> OkForm(fs[i])
  }

  function StringOf(fs: seq<Form>): string
    requires OkForms(fs)
  {
    if fs == [] then [] else [CharOf(fs[0])] + StringOf(fs[1..])
  }

  function FormsText(fs: seq<Form>): string {
    if fs == [] then [] else FormText(fs[0]) + FormsText(fs[1..])
  }

  function LiteralText(fs: seq<Form>): string {
    "\"" + FormsText(fs) + "\""
  }

  // ---- numbers -------------------------------------------------------------

  predicate OkDigits(ds: seq<nat>) {
    ds != [] && (forall i :: 0 <= i < |ds| ==> ds[i] < 10) && (|ds| > 1 ==> ds[0] != 0)
  }

  function NatOf(ds: seq<nat>): nat {
    if ds == [] then 0 else NatOf(ds[..|ds| - 1]) * 10 + ds[|ds| - 1]
  }

  function DigitsText(ds: seq<nat>): string
    requires forall i :: 0 <= i < |ds| ==> ds[i] < 10
  {
    seq(|ds|, i requires 0 <= i < |ds| => Digit(ds[i]))
  }

  // ---- values --------------------------------------------------------------

  /** A value with the whitespace around it. */
  datatype Doc = Doc(before: string, core: Core, after: string)

  datatype Core =
    | Word(word: Value)
    | Number(minus: bool, digits: seq<nat>)
    | Literal(forms: seq<Form>)
    | List(items: seq<Doc>, gap: string)
    | Members(members: seq<Member>, gap: string)

  datatype Member = Entry(before: string, key: seq<Form>, after: string, value: Doc)

  predicate Space(s: string) {
    forall i :: 0 <= i < |s| ==> s[i] in " \t\n\r"
  }

  predicate OkDoc(d: Doc) {
    Space(d.before) && Space(d.after) && OkCore(d.core)
  }

  predicate OkCore(c: Core) {
    match c
    case Word(v) => v.Null? || v.Bool?
    case Number(_, ds) => OkDigits(ds)
    case Literal(fs) => OkForms(fs)
    case List(items, gap) => Space(gap) && forall i :: 0 <= i < |items| ==> OkDoc(items[i])
    case Members(ms, gap) => Space(gap) && forall i :: 0 <= i < |ms| ==> OkMember(ms[i])
  }

  predicate OkMember(m: Member) {
    Space(m.before) && Space(m.after) && OkForms(m.key) && OkDoc(m.value)
  }

  /** The value that a text stands for; of two members with one name the later counts. */
  function ValueOf(d: Doc): Value
    requires OkDoc(d)
    decreases d, 0
  {
    CoreValue(d.core)
  }

  function CoreValue(c: Core): Value
    requires OkCore(c)
    decreases c, 1
  {
    match c
    case Word(v) => v
    case Number(minus, ds) => var n: int := NatOf(ds); Int(if minus then -n else n)
    case Literal(fs) => Str(StringOf(fs))
    case List(items, _) => Arr(seq(|items|, i requires 0 <= i < |items| => ValueOf(items[i])))
    case Members(ms, _) => Obj(MapOf(c, |ms|))
  }

  /** The first `n` members. */
  function MapOf(c: Core, n: nat): map<string, Value>
    requires OkCore(c) && c.Members? && n <= |c.members|
    decreases c, 0, n
  {
    if n == 0 then map[]
    else
      var m := c.members[n - 1];
      assert OkMember(m);
      MapOf(c, n - 1)[StringOf(m.key) := ValueOf(m.value)]
  }

  function Text(d: Doc): string
    requires OkDoc(d)
    decreases d, 0
  {
    d.before + CoreText(d.core) + d.after
  }

  function CoreText(c: Core): string
    requires OkCore(c)
    decreases c, 1
  {
    match c
    case Word(v) => if v.Null? then "null" else if v.b then "true" else "false"
    case Number(minus, ds) => (if minus then "-" else "") + DigitsText(ds)
    case Literal(fs) => LiteralText(fs)
    case List(items, gap) => "[" + (if items == [] then gap + "]" else Joined(ItemTexts(c), "]", 0))
    case Members(ms, gap) => "{" + (if ms == [] then gap + "}" else Joined(MemberTexts(c), "}", 0))
  }

  /** The parts from the `i`-th on, with commas between all of them and the closing text behind. */
  function Joined(parts: seq<string>, close: string, i: nat): string
    requires i <= |parts|
    decreases |parts| - i
  {
    if i == |parts| then close
    else (if i > 0 then "," else "") + parts[i] + Joined(parts, close, i + 1)
  }

  function ItemTexts(c: Core): seq<string>
    requires OkCore(c) && c.List?
    decreases c, 0
  {
    seq(|c.items|, i requires 0 <= i < |c.items| => Text(c.items[i]))
  }

  function MemberTexts(c: Core): seq<string>
    requires OkCore(c) && c.Members?
    decreases c, 0
  {
    seq(|c.members|, i requires 0 <= i < |c.members| => MemberText(c.members[i]))
  }

  function MemberText(m: Member): string
    requires OkMember(m)
    decreases m, 0
  {
    m.before + LiteralText(m.key) + m.after + ":" + Text(m.value)
  }

  /** The names of the members, in the order of the text. */
  function Names(c: Core): (ks: seq<string>)
    requires OkCore(c) && c.Members?
    ensures |ks| == |c.members|
  {
    assert forall i :: 0 <= i < |c.members| ==> OkMember(c.members[i]);
    seq(|c.members|, i requires 0 <= i < |c.members| => StringOf(c.members[i].key))
  }
}
