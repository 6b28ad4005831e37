/** No JSON text of a value is shorter than the canonical one. */
module Shortest {
  import opened Json
  import opened Canonical
  import opened JsonText

  // ---- characters and numbers ----------------------------------------------

  /** No way to write a character is shorter than the canonical one. */
  lemma {:induction false} FormNotShorter(f: Form)
    requires OkForm(f)
    ensures |EscapeChar(CharOf(f))| <= |FormText(f)|
  {
  }

  lemma {:induction false} FormsNotShorter(fs: seq<Form>)
    requires OkForms(fs)
    ensures |Escape(StringOf(fs))| <= |FormsText(fs)|
  {
    if fs != [] {
      FormNotShorter(fs[0]);
      FormsNotShorter(fs[1..]);
      assert StringOf(fs)[1..] == StringOf(fs[1..]);
    }
  }

  lemma {:induction false} DigitsNotShorter(ds: seq<nat>)
    requires ds != [] && forall i :: 0 <= i < |ds| ==> ds[i] < 10
    ensures |Digits(NatOf(ds))| <= |ds|
    decreases |ds|
  {
    var init := ds[..|ds| - 1];
    if NatOf(ds) >= 10 {
      assert init != [];
      DigitsNotShorter(init);
      assert NatOf(ds) / 10 == NatOf(init);
    }
  }

  lemma {:induction false} NumberNotShorter(c: Core)
    requires OkCore(c) && c.Number?
    ensures CoreValue(c).Int? && |Decimal(CoreValue(c).i)| <= |CoreText(c)|
  {
    DigitsNotShorter(c.digits);
  }

  // ---- sums over the keys of an object -------------------------------------

  function Total(sizes: map<string, nat>): nat
    decreases |sizes.Keys|
  {
    if sizes.Keys == {} then 0
    else
      var k := Least(sizes.Keys);
      Smaller(sizes, k);
      sizes[k] + Total(sizes - {k})
  }

  lemma {:induction false} Smaller(sizes: map<string, nat>, k: string)
    requires k in sizes
    ensures (sizes - {k}).Keys == sizes.Keys - {k} && |(sizes - {k}).Keys| < |sizes.Keys|
  {
    assert (sizes - {k}).Keys == sizes.Keys - {k};
  }

  /** The sum can be taken in any order. */
  lemma {:induction false} TotalWithout(sizes: map<string, nat>, k: string)
    requires k in sizes
    ensures Total(sizes) == sizes[k] + Total(sizes - {k})
    decreases |sizes.Keys|
  {
    var l := Least(sizes.Keys);
    if k != l {
      Smaller(sizes, l);
      TotalWithout(sizes - {l}, k);
      LeastStays(sizes, k, l);
      RemovedBoth(sizes, k, l);
    }
  }

  lemma {:induction false} RemovedBoth(sizes: map<string, nat>, k: string, l: string)
    ensures sizes - {l} - {k} == sizes - {k} - {l}
  {
  }

  lemma {:induction false} LeastStays(sizes: map<string, nat>, k: string, l: string)
    requires k in sizes && IsLeast(l, sizes.Keys) && k != l
    ensures l in sizes - {k} && Total(sizes - {k}) == sizes[l] + Total(sizes - {k} - {l})
  {
    Smaller(sizes, k);
    LeastUnique((sizes - {k}).Keys, Least((sizes - {k}).Keys), l);
  }

  lemma {:induction false} TotalUpdated(sizes: map<string, nat>, k: string, n: nat)
    ensures Total(sizes[k := n]) <= Total(sizes) + n
  {
    TotalWithout(sizes[k := n], k);
    assert sizes[k := n] - {k} == sizes - {k};
    if k in sizes {
      TotalWithout(sizes, k);
    } else {
      assert sizes - {k} == sizes;
    }
  }

  lemma {:induction false} TotalGrows(a: map<string, nat>, b: map<string, nat>)
    requires a.Keys == b.Keys && forall k :: k in a ==> a[k] <= b[k]
    ensures Total(a) <= Total(b)
    decreases |a.Keys|
  {
    if a.Keys != {} {
      var k := Least(a.Keys);
      Smaller(a, k);
      Smaller(b, k);
      TotalGrows(a - {k}, b - {k});
    }
  }

  // ---- the canonical text of an object -------------------------------------

  /** A member's canonical text and a comma or brace. */
  function MemberSize(k: string, v: Value): nat
    requires IsClean(v)
  {
    |Quote(k)| + 1 + |Dump(v)| + 1
  }

  function Sizes(m: map<string, Value>): map<string, nat>
    requires forall k :: k in m ==> IsClean(m[k])
  {
    map k | k in m :: MemberSize(k, m[k])
  }

  function SizeOfKeys(v: Value, keys: seq<string>): nat
    requires v.Obj? && IsClean(v) && forall k :: k in keys ==> k in v.members
  {
    if keys == [] then 0 else MemberSize(keys[0], v.members[keys[0]]) + SizeOfKeys(v, keys[1..])
  }

  lemma {:induction false} DumpMembersSize(v: Value, keys: seq<string>, i: nat)
    requires v.Obj? && IsClean(v) && i <= |keys| && forall k :: k in keys ==> k in v.members
    ensures |DumpMembers(v, keys, i)| == SizeOfKeys(v, keys[i..]) + (if i == 0 < |keys| then 0 else 1)
    decreases |keys| - i
  {
    if i < |keys| {
      DumpMembersSize(v, keys, i + 1);
      assert keys[i..][0] == keys[i] && keys[i..][1..] == keys[i + 1..];
      assert keys[i] in keys;
    }
  }

  /** The members with these keys. */
  function Part(v: Value, ks: set<string>): map<string, Value>
    requires v.Obj? && ks <= v.members.Keys
  {
    map k | k in ks :: v.members[k]
  }

  lemma {:induction false} SizesWithout(v: Value, ks: set<string>, l: string)
    requires v.Obj? && IsClean(v) && ks <= v.members.Keys && l in ks
    ensures Sizes(Part(v, ks)).Keys == ks && Sizes(Part(v, ks))[l] == MemberSize(l, v.members[l])
    ensures Sizes(Part(v, ks)) - {l} == Sizes(Part(v, ks - {l}))
  {
  }

  lemma {:induction false} SortedFirst(ks: set<string>)
    requires ks != {}
    ensures SortedKeys(ks) == [Least(ks)] + SortedKeys(ks - {Least(ks)})
    ensures SortedKeys(ks)[1..] == SortedKeys(ks - {Least(ks)})
  {
  }

  /** Adding up in key order gives the total. */
  lemma {:induction false} SortedTotal(v: Value, ks: set<string>)
    requires v.Obj? && IsClean(v) && ks <= v.members.Keys
    ensures SizeOfKeys(v, SortedKeys(ks)) == Total(Sizes(Part(v, ks)))
    decreases |ks|
  {
    if ks == {} {
      assert Sizes(Part(v, ks)).Keys == {};
    } else {
      var l := Least(ks);
      SortedTotal(v, ks - {l});
      SortedFirst(ks);
      SizesWithout(v, ks, l);
    }
  }

  lemma {:induction false} ObjectSize(v: Value)
    requires v.Obj? && IsClean(v)
    ensures |Dump(v)| == 1 + Total(Sizes(v.members)) + (if v.members.Keys == {} then 1 else 0)
  {
    var keys := SortedKeys(v.members.Keys);
    DumpMembersSize(v, keys, 0);
    assert keys[0..] == keys;
    KeysTotal(v);
    NoKeys(v.members.Keys);
  }

  lemma {:induction false} KeysTotal(v: Value)
    requires v.Obj? && IsClean(v)
    ensures SizeOfKeys(v, SortedKeys(v.members.Keys)) == Total(Sizes(v.members))
  {
    SortedTotal(v, v.members.Keys);
    assert Part(v, v.members.Keys) == v.members;
  }

  lemma {:induction false} NoKeys(ks: set<string>)
    ensures SortedKeys(ks) == [] <==> ks == {}
  {
    if ks != {} {
      SortedFirst(ks);
    }
  }

  // ---- the text of any object ----------------------------------------------

  /** For each name the size of the last of the first `n` texts, with a comma or brace. */
  function LastSizes(names: seq<string>, texts: seq<string>, n: nat): map<string, nat>
    requires n <= |names| == |texts|
  {
    if n == 0 then map[] else LastSizes(names, texts, n - 1)[names[n - 1] := |texts[n - 1]| + 1]
  }

  function SumUpTo(texts: seq<string>, n: nat): nat
    requires n <= |texts|
  {
    if n == 0 then 0 else SumUpTo(texts, n - 1) + (|texts[n - 1]| + 1)
  }

  lemma {:induction false} LastTotal(names: seq<string>, texts: seq<string>, n: nat)
    requires n <= |names| == |texts|
    ensures Total(LastSizes(names, texts, n)) <= SumUpTo(texts, n)
  {
    if n > 0 {
      LastTotal(names, texts, n - 1);
      TotalUpdated(LastSizes(names, texts, n - 1), names[n - 1], |texts[n - 1]| + 1);
    }
  }

  lemma {:induction false} JoinedSize(texts: seq<string>, close: string, i: nat)
    requires i <= |texts| && texts != []
    ensures |Joined(texts, close, i)| + SumUpTo(texts, i)
         == SumUpTo(texts, |texts|) + |close| - (if i == 0 then 1 else 0)
    decreases |texts| - i
  {
    if i < |texts| {
      JoinedSize(texts, close, i + 1);
    }
  }

  // ---- no text is shorter --------------------------------------------------

  /** No JSON text of a clean value is shorter than the canonical one. */
  lemma {:induction false} CanonicalIsShortest(d: Doc)
    requires OkDoc(d) && IsClean(ValueOf(d))
    ensures |Dump(ValueOf(d))| <= |Text(d)|
    decreases d, 0
  {
    CoreNotShorter(d.core);
  }

  lemma {:induction false} CoreNotShorter(c: Core)
    requires OkCore(c) && IsClean(CoreValue(c))
    ensures |Dump(CoreValue(c))| <= |CoreText(c)|
    decreases c, 1
  {
    match c
    case Word(v) =>
    case Number(_, _) => NumberNotShorter(c);
    case Literal(fs) => FormsNotShorter(fs);
    case List(items, gap) => ItemsNotShorter(c, 0);
    case Members(ms, gap) => ObjectNotShorter(c);
  }

  lemma {:induction false} ItemsNotShorter(c: Core, i: nat)
    requires OkCore(c) && c.List? && IsClean(CoreValue(c)) && i <= |c.items|
    ensures |DumpElems(CoreValue(c), i)| <= |Joined(ItemTexts(c), "]", i)|
    decreases c, 0, |c.items| - i
  {
    if i < |c.items| {
      assert CoreValue(c).elems[i] == ValueOf(c.items[i]) && ItemTexts(c)[i] == Text(c.items[i]);
      CanonicalIsShortest(c.items[i]);
      ItemsNotShorter(c, i + 1);
    }
  }

  lemma {:induction false} ObjectNotShorter(c: Core)
    requires OkCore(c) && c.Members? && IsClean(CoreValue(c))
    ensures |Dump(CoreValue(c))| <= |CoreText(c)|
    decreases c, 0, |c.members| + 2
  {
    ObjectSize(CoreValue(c));
    TotalNotLarger(c);
    ObjectTextSize(c);
    SomeMember(c, |c.members|);
  }

  lemma {:induction false} SomeMember(c: Core, n: nat)
    requires OkCore(c) && c.Members? && n <= |c.members|
    ensures MapOf(c, n).Keys == {} <==> n == 0
  {
    if n > 0 {
      assert StringOf(c.members[n - 1].key) in MapOf(c, n);
    }
  }

  lemma {:induction false} TotalNotLarger(c: Core)
    requires OkCore(c) && c.Members? && IsClean(CoreValue(c))
    ensures Total(Sizes(CoreValue(c).members)) <= SumUpTo(MemberTexts(c), |c.members|)
    decreases c, 0, |c.members| + 1
  {
    var n, names, texts := |c.members|, Names(c), MemberTexts(c);
    LastTotal(names, texts, n);
    MembersNotShorter(c, names, texts, n);
    BoundedTotal(CoreValue(c).members, LastSizes(names, texts, n));
  }

  lemma {:induction false} ObjectTextSize(c: Core)
    requires OkCore(c) && c.Members?
    ensures |CoreText(c)| >= 1 + SumUpTo(MemberTexts(c), |c.members|) + (if c.members == [] then 1 else 0)
  {
    if c.members != [] {
      JoinedSize(MemberTexts(c), "}", 0);
    }
  }

  /** Each member, if it is clean, takes no more room than this when it is printed. */
  ghost predicate Bounded(m: map<string, Value>, sizes: map<string, nat>) {
    m.Keys == sizes.Keys && forall k :: k in m && IsClean(m[k]) ==> MemberSize(k, m[k]) <= sizes[k]
  }

  lemma {:induction false} BoundedMore(m: map<string, Value>, sizes: map<string, nat>, k: string, v: Value, n: nat)
    requires Bounded(m, sizes) && (IsClean(v) ==> MemberSize(k, v) <= n)
    ensures Bounded(m[k := v], sizes[k := n])
  {
  }

  lemma {:induction false} BoundedTotal(m: map<string, Value>, sizes: map<string, nat>)
    requires Bounded(m, sizes) && forall k :: k in m ==> IsClean(m[k])
    ensures Total(Sizes(m)) <= Total(sizes)
  {
    TotalGrows(Sizes(m), sizes);
  }

  /** Each clean member's canonical text is no longer than the text that it was read from. */
  lemma {:induction false} MembersNotShorter(c: Core, names: seq<string>, texts: seq<string>, n: nat)
    requires OkCore(c) && c.Members? && n <= |c.members| && names == Names(c) && texts == MemberTexts(c)
    ensures Bounded(MapOf(c, n), LastSizes(names, texts, n))
    decreases c, 0, n
  {
    if n > 0 {
      MembersNotShorter(c, names, texts, n - 1);
      var m := c.members[n - 1];
      assert OkMember(m) && names[n - 1] == StringOf(m.key) && texts[n - 1] == MemberText(m);
      MemberNotShorter(m);
      BoundedMore(MapOf(c, n - 1), LastSizes(names, texts, n - 1), names[n - 1], ValueOf(m.value), |texts[n - 1]| + 1);
    }
  }

  lemma {:induction false} MemberNotShorter(m: Member)
    requires OkMember(m)
    ensures IsClean(ValueOf(m.value)) ==> MemberSize(StringOf(m.key), ValueOf(m.value)) <= |MemberText(m)| + 1
    decreases m, 0
  {
    FormsNotShorter(m.key);
    if IsClean(ValueOf(m.value)) {
      CanonicalIsShortest(m.value);
    }
  }
}
