/**
 UTF-8 as in section 3 of RFC 3629, over Unicode scalar values: the encoding
 has an inverse, and comparing encodings byte by byte is comparing strings
 code point by code point.
 */
module Utf8 {
  import opened Prelude

  function EncodeChar(c: char): (bs: Bytes)
    ensures 1 <= |bs| <= 4
  {
    var n := c as int;
    var n1 := n / 64;
    var n2 := n1 / 64;
    var n3 := n2 / 64;
    if n < 0x80 then [n as Byte]
    else if n < 0x800 then [(0xC0 + n1) as Byte, Tail(n)]
    else if n < 0x10000 then [(0xE0 + n2) as Byte, Tail(n1), Tail(n)]
    else [(0xF0 + n3) as Byte, Tail(n2), Tail(n1), Tail(n)]
  }

  /** A continuation byte: the low six bits. */
  function Tail(n: nat): Byte {
    (0x80 + n % 64) as Byte
  }

  function Encode(s: string): Bytes {
    if s == [] then [] else EncodeChar(s[0]) + Encode(s[1..])
  }

  // ---- decoding ------------------------------------------------------------

  /** The number of bytes of a character, from its first byte; none for a continuation byte. */
  function Width(b: Byte): nat {
    if b < 0x80 then 1 else if b < 0xC0 then 0 else if b < 0xE0 then 2 else if b < 0xF0 then 3 else if b < 0xF8 then 4 else 0
  }

  predicate IsTail(b: Byte) {
    0x80 <= b < 0xC0
  }

  /** A first byte and as many continuation bytes as it asks for. */
  predicate WellFormed(bs: Bytes) {
    && bs != [] && 0 < Width(bs[0]) <= |bs|
    && (forall i :: 0 < i < Width(bs[0]) ==> IsTail(bs[i]))
    && IsScalar(CodePoint(bs, Width(bs[0])))
  }

  /** The code point in the first `w` bytes. */
  function CodePoint(bs: Bytes, w: nat): int
    requires 1 <= w <= 4 && w <= |bs|
  {
    if w == 1 then bs[0] as int
    else if w == 2 then (bs[0] as int - 0xC0) * 64 + (bs[1] as int - 0x80)
    else if w == 3 then (bs[0] as int - 0xE0) * 4096 + (bs[1] as int - 0x80) * 64 + (bs[2] as int - 0x80)
    else (bs[0] as int - 0xF0) * 262144 + (bs[1] as int - 0x80) * 4096 + (bs[2] as int - 0x80) * 64
         + (bs[3] as int - 0x80)
  }

  predicate IsScalar(n: int) {
    0 <= n < 0xD800 || 0xE000 <= n < 0x110000
  }

  function Decode(bs: Bytes): Option<string>
    decreases |bs|
  {
    if bs == [] then Some([])
    else if !WellFormed(bs) then None
    else
      var w := Width(bs[0]);
      match Decode(bs[w..])
      case None => None
      case Some(s) => Some([CodePoint(bs, w) as char] + s)
  }

  lemma {:induction false} EncodeCharDecodes(c: char, rest: Bytes)
    ensures var bs := EncodeChar(c) + rest;
      WellFormed(bs) && Width(bs[0]) == |EncodeChar(c)| && CodePoint(bs, Width(bs[0])) == c as int
  {
    var x := EncodeChar(c);
    assert forall i :: 0 <= i < |x| ==> (x + rest)[i] == x[i];
    CharDecodes(c);
  }

  lemma CharDecodes(c: char)
    ensures var x := EncodeChar(c);
      Width(x[0]) == |x| && (forall i :: 0 < i < |x| ==> IsTail(x[i])) && CodePoint(x, |x|) == c as int
  {
  }

  lemma {:induction false} DecodeEncode(s: string)
    ensures Decode(Encode(s)) == Some(s)
    decreases |s|
  {
    if s != [] {
      var rest := Encode(s[1..]);
      DecodeEncode(s[1..]);
      EncodeCharDecodes(s[0], rest);
      assert Encode(s)[|EncodeChar(s[0])|..] == rest;
      assert s == [s[0]] + s[1..];
    }
  }

  /** A character takes no more bytes than any well-formed sequence that stands for it. */
  lemma {:induction false} NoShorterChar(bs: Bytes)
    requires WellFormed(bs)
    ensures |EncodeChar(CodePoint(bs, Width(bs[0])) as char)| <= Width(bs[0])
  {
    var w := Width(bs[0]);
    assert w > 1 ==> IsTail(bs[1]);
    assert w > 2 ==> IsTail(bs[2]);
    assert w > 3 ==> IsTail(bs[3]);
  }

  /** No encoding of a string is shorter: there are no overlong forms. */
  lemma {:induction false} NoShorterEncoding(bs: Bytes)
    requires Decode(bs).Some?
    ensures |Encode(Decode(bs).value)| <= |bs|
    decreases |bs|
  {
    if bs != [] {
      var rest := bs[Width(bs[0])..];
      NoShorterChar(bs);
      NoShorterEncoding(rest);
      assert Decode(bs).value[1..] == Decode(rest).value;
    }
  }

  lemma {:induction false} EncodeConcat(a: string, b: string)
    ensures Encode(a + b) == Encode(a) + Encode(b)
    decreases |a|
  {
    if a == [] {
      assert a + b == b;
    } else {
      EncodeConcat(a[1..], b);
      assert (a + b)[0] == a[0] && (a + b)[1..] == a[1..] + b;
      assert EncodeChar(a[0]) + (Encode(a[1..]) + Encode(b)) == (EncodeChar(a[0]) + Encode(a[1..])) + Encode(b);
    }
  }

  // ---- order ---------------------------------------------------------------

  /** Strings in code-point order. */
  predicate StringLess(a: string, b: string) {
    b != [] && (a == [] || a[0] < b[0] || (a[0] == b[0] && StringLess(a[1..], b[1..])))
  }

  /** Byte strings in byte order. */
  predicate BytesLess(a: Bytes, b: Bytes) {
    b != [] && (a == [] || a[0] < b[0] || (a[0] == b[0] && BytesLess(a[1..], b[1..])))
  }

  lemma {:induction false} BytesLessPrefix(p: Bytes, a: Bytes, b: Bytes)
    ensures BytesLess(p + a, p + b) <==> BytesLess(a, b)
    decreases |p|
  {
    if p == [] {
      assert p + a == a && p + b == b;
    } else {
      BytesLessPrefix(p[1..], a, b);
      assert (p + a)[1..] == p[1..] + a && (p + b)[1..] == p[1..] + b;
    }
  }

  /** Where two encodings first differ, the byte of the smaller character is smaller. */
  lemma {:induction false} BytesLessAt(x: Bytes, y: Bytes, i: nat)
    requires i < |x| && i < |y| && x[..i] == y[..i] && x[i] != y[i]
    ensures BytesLess(x, y) <==> x[i] < y[i]
    decreases i
  {
    if i > 0 {
      assert x[..i][0] == x[0] && y[..i][0] == y[0];
      assert x[1..][..i - 1] == x[..i][1..] && y[1..][..i - 1] == y[..i][1..];
      BytesLessAt(x[1..], y[1..], i - 1);
    }
  }

  predicate DiffersAt(x: Bytes, y: Bytes, i: nat) {
    i < |x| && i < |y| && x[..i] == y[..i] && x[i] < y[i]
  }

  lemma LongerDiffers(c: char, d: char)
    requires c < d && |EncodeChar(c)| < |EncodeChar(d)|
    ensures DiffersAt(EncodeChar(c), EncodeChar(d), 0)
  {
  }

  /** Numbers differ first in their quotients by 64, or else in their remainders. */
  lemma Base64(n: nat, m: nat)
    requires n < m
    ensures n / 64 < m / 64 || (n / 64 == m / 64 && Tail(n) < Tail(m))
  {
  }

  lemma SameWidthDiffers(c: char, d: char) returns (i: nat)
    requires c < d && |EncodeChar(c)| == |EncodeChar(d)|
    ensures DiffersAt(EncodeChar(c), EncodeChar(d), i)
  {
    var n, m := c as int, d as int;
    Base64(n, m);
    i := |EncodeChar(c)| - 1;
    if n / 64 < m / 64 && n >= 0x80 {
      Base64(n / 64, m / 64);
      i := i - 1;
      if n / 64 / 64 < m / 64 / 64 && n >= 0x800 {
        Base64(n / 64 / 64, m / 64 / 64);
        i := i - 1;
        if n / 64 / 64 / 64 < m / 64 / 64 / 64 && n >= 0x10000 {
          i := i - 1;
        }
      }
    }
  }

  /** A smaller character has a smaller byte at the first difference, which lies inside both. */
  lemma CharDiffers(c: char, d: char) returns (i: nat)
    requires c < d
    ensures DiffersAt(EncodeChar(c), EncodeChar(d), i)
  {
    if |EncodeChar(c)| == |EncodeChar(d)| {
      i := SameWidthDiffers(c, d);
    } else {
      i := 0;
      LongerDiffers(c, d);
    }
  }

  /** Byte order of UTF-8 is code-point order, for all strings. */
  lemma {:induction false} OrderAgrees(a: string, b: string)
    ensures BytesLess(Encode(a), Encode(b)) <==> StringLess(a, b)
    decreases |a|
  {
    if a != [] && b != [] {
      var x, y := EncodeChar(a[0]), EncodeChar(b[0]);
      if a[0] == b[0] {
        OrderAgrees(a[1..], b[1..]);
        BytesLessPrefix(x, Encode(a[1..]), Encode(b[1..]));
      } else if a[0] < b[0] {
        var i := CharDiffers(a[0], b[0]);
        FirstDifference(x, Encode(a[1..]), y, Encode(b[1..]), i);
      } else {
        var i := CharDiffers(b[0], a[0]);
        FirstDifference(x, Encode(a[1..]), y, Encode(b[1..]), i);
      }
    }
  }

  lemma FirstDifference(x: Bytes, s: Bytes, y: Bytes, t: Bytes, i: nat)
    requires i < |x| && i < |y| && x[..i] == y[..i] && x[i] != y[i]
    ensures BytesLess(x + s, y + t) <==> x[i] < y[i]
  {
    assert (x + s)[..i] == x[..i] && (y + t)[..i] == y[..i];
    BytesLessAt(x + s, y + t, i);
  }
}
