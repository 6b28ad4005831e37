/**
 Newline-delimited files: what the ledger file and the spill file share.
 Records are written one per line through a codec; a reader goes line by line
 from a byte position and skips blank lines.
 */
module LineFile {
  import opened Prelude

  const NL: Byte := 10
  const CR: Byte := 13

  /** One record to one line of text, without its newline, and back. */
  datatype Codec<!T(!new)> = Codec(encode: T -> Bytes, decode: Bytes -> Option<T>)

  predicate IsSpace(b: Byte) {
    9 <= b <= 13 || b == 32
  }

  /** Nothing is left of the line when whitespace is stripped. */
  predicate Blank(line: Bytes) {
    forall i :: 0 <= i < |line| ==> IsSpace(line[i])
  }

  /**
   What the JSON text of a record guarantees: it has no raw line break, it is
   not blank, and reading it back, newline included, gives the record.
   */
  ghost predicate Faithful<T(!new)>(c: Codec<T>) {
    forall t: T :: LineOk(c, t)
  }

  ghost predicate LineOk<T(!new)>(c: Codec<T>, t: T) {
    var s := c.encode(t);
    && NL !in s && CR !in s && !Blank(s)
    && c.decode(s + [NL]) == Some(t)
  }

  /** The file that holds `ts`. */
  function Content<T(!new)>(c: Codec<T>, ts: seq<T>): Bytes {
    if ts == [] then [] else Content(c, ts[..|ts| - 1]) + Line(c, ts[|ts| - 1])
  }

  function Line<T(!new)>(c: Codec<T>, t: T): Bytes {
    c.encode(t) + [NL]
  }

  /** The byte at which record `i` starts. */
  function Start<T(!new)>(c: Codec<T>, ts: seq<T>, i: nat): nat
    requires i <= |ts|
  {
    |Content(c, ts[..i])|
  }

  /** The end of the line that starts at `from`: past the next newline, or the end of the data. */
  function LineEnd(data: Bytes, from: nat): (e: nat)
    requires from <= |data|
    ensures from <= e <= |data|
    ensures from < |data| ==> from < e
    decreases |data| - from
  {
    if from == |data| then from
    else if data[from] == NL then from + 1
    else LineEnd(data, from + 1)
  }

  /** Where the non-blank lines from `from` on start. */
  function LineStarts(data: Bytes, from: nat): seq<nat>
    requires from <= |data|
    decreases |data| - from
  {
    if from == |data| then []
    else
      var e := LineEnd(data, from);
      (if Blank(data[from..e]) then [] else [from]) + LineStarts(data, e)
  }

  // ---- the lines of a well formed file -------------------------------------

  lemma {:induction false} ContentPrefix<T(!new)>(c: Codec<T>, ts: seq<T>, i: nat)
    requires i <= |ts|
    ensures Content(c, ts[..i]) <= Content(c, ts)
    ensures i < |ts| ==> Content(c, ts[..i + 1]) == Content(c, ts[..i]) + Line(c, ts[i])
    decreases |ts|
  {
    if i < |ts| {
      assert ts[..i + 1][..i] == ts[..i];
      var init := ts[..|ts| - 1];
      ContentPrefix(c, init, i);
      assert init[..i] == ts[..i];
    } else {
      assert ts[..i] == ts;
    }
  }

  lemma StartOfEnd<T(!new)>(c: Codec<T>, ts: seq<T>)
    ensures Start(c, ts, |ts|) == |Content(c, ts)|
  {
    assert ts[..|ts|] == ts;
  }

  /** The bytes of record `i` sit at its start. */
  lemma RecordAt<T(!new)>(c: Codec<T>, ts: seq<T>, i: nat)
    requires i < |ts|
    ensures var s := Start(c, ts, i);
      && Start(c, ts, i + 1) == s + |Line(c, ts[i])| <= |Content(c, ts)|
      && Content(c, ts)[s..s + |Line(c, ts[i])|] == Line(c, ts[i])
  {
    ContentPrefix(c, ts, i);
    ContentPrefix(c, ts, i + 1);
    var s, next := Start(c, ts, i), Content(c, ts[..i + 1]);
    assert Content(c, ts)[..|next|] == next;
    assert next[s..] == Line(c, ts[i]);
    assert Content(c, ts)[s..|next|] == next[s..];
  }

  lemma {:induction false} LineEndAt(data: Bytes, from: nat, e: nat)
    requires from <= e < |data| && data[e] == NL
    requires forall k :: from <= k < e ==> data[k] != NL
    ensures LineEnd(data, from) == e + 1
    decreases e - from
  {
    if from < e {
      LineEndAt(data, from + 1, e);
    }
  }

  /** Reading a line at the start of record `i` reads exactly that record. */
  lemma ReadRecord<T(!new)>(c: Codec<T>, ts: seq<T>, i: nat)
    requires Faithful(c) && i < |ts|
    ensures var data, s := Content(c, ts), Start(c, ts, i);
      && s < |data|
      && LineEnd(data, s) == Start(c, ts, i + 1)
      && data[s..LineEnd(data, s)] == Line(c, ts[i])
      && !Blank(Line(c, ts[i]))
      && c.decode(Line(c, ts[i])) == Some(ts[i])
  {
    assert LineOk(c, ts[i]);
    RecordAt(c, ts, i);
    LineInside(Content(c, ts), Start(c, ts, i), c.encode(ts[i]));
    NotBlank(c.encode(ts[i]), Line(c, ts[i]));
  }

  lemma LineInside(data: Bytes, s: nat, body: Bytes)
    requires s + |body| < |data| && NL !in body
    requires data[s..s + |body| + 1] == body + [NL]
    ensures LineEnd(data, s) == s + |body| + 1
  {
    var e := s + |body|;
    forall k | s <= k < e ensures data[k] != NL {
      assert data[s..e + 1][k - s] == body[k - s];
    }
    assert data[s..e + 1][|body|] == NL;
    LineEndAt(data, s, e);
  }

  lemma {:induction false} NotBlank(s: Bytes, line: Bytes)
    requires !Blank(s) && s <= line
    ensures !Blank(line)
  {
    var i :| 0 <= i < |s| && !IsSpace(s[i]);
    assert line[i] == s[i];
  }

  /** From record `i` on, the non-blank lines are the remaining records. */
  lemma {:induction false} StartsFrom<T(!new)>(c: Codec<T>, ts: seq<T>, i: nat)
    requires Faithful(c) && i <= |ts|
    ensures Start(c, ts, i) <= |Content(c, ts)|
    ensures LineStarts(Content(c, ts), Start(c, ts, i)) == Starts(c, ts, i)
    decreases |ts| - i
  {
    if i == |ts| {
      assert ts[..i] == ts;
    } else {
      ReadRecord(c, ts, i);
      StartsFrom(c, ts, i + 1);
    }
  }

  function Starts<T(!new)>(c: Codec<T>, ts: seq<T>, i: nat): (r: seq<nat>)
    requires i <= |ts|
    ensures |r| == |ts| - i
    ensures forall k :: 0 <= k < |r| ==> r[k] == Start(c, ts, i + k)
    decreases |ts| - i
  {
    if i == |ts| then [] else [Start(c, ts, i)] + Starts(c, ts, i + 1)
  }
}
