/**
 The spill file, its cursor and what a drain does to them, for any bytes on
 disk and any cursor: a line that cannot be decoded raises an error.
 */
module SpillDisk {
  import opened Prelude
  import opened LineFile

  /** The file, the cursor file, and the cursor in memory. */
  datatype Disk = Disk(file: Bytes, cursor: Option<nat>, consumed: nat)

  /** The cursor as it would be reloaded. */
  function Saved(d: Disk): nat {
    if d.cursor.None? then 0 else d.cursor.value
  }

  function Reopened(d: Disk): Disk {
    d.(consumed := Saved(d))
  }

  /** A line that was read and accepted. */
  datatype Read<T> = Read(from: nat, to: nat, span: T)

  /** Where the reading loop stopped, whether with an error, and what it read. */
  datatype Fed<T> = Fed(pos: nat, raised: bool, taken: seq<Read<T>>)

  function Also<T>(taken: seq<Read<T>>, fed: Fed<T>): Fed<T> {
    fed.(taken := taken + fed.taken)
  }

  /** The reading loop of a drain, from `pos` on and with `n` spans accepted before. */
  function Feed<T(!new)>(c: Codec<T>, file: Bytes, pos: nat, accept: (nat, T) -> bool, n: nat): (r: Fed<T>)
    ensures r.pos >= pos
    decreases if pos < |file| then |file| - pos else 0
  {
    if pos >= |file| then Fed(pos, false, [])
    else
      var e := LineEnd(file, pos);
      var line := file[pos..e];
      if Blank(line) then Feed(c, file, e, accept, n)
      else
        match c.decode(line)
        case None => Fed(pos, true, [])
        case Some(span) =>
          if !accept(n, span) then Fed(pos, false, [])
          else Also([Read(pos, e, span)], Feed(c, file, e, accept, n + 1))
  }

  /** A line of ASCII whitespace is skipped and not counted; one with any other byte is counted. */
  lemma {:induction false} WhitespaceSkipped<T(!new)>(c: Codec<T>, file: Bytes, pos: nat, accept: (nat, T) -> bool, n: nat)
    requires pos < |file|
    ensures var e := LineEnd(file, pos);
      if forall i :: pos <= i < e ==> file[i] in [9, 10, 11, 12, 13, 32] then
        Feed(c, file, pos, accept, n) == Feed(c, file, e, accept, n) && LineStarts(file, pos) == LineStarts(file, e)
      else LineStarts(file, pos) == [pos] + LineStarts(file, e)
  {
    var e := LineEnd(file, pos);
    var line := file[pos..e];
    assert forall i :: pos <= i < e ==> file[i] == line[i - pos];
    assert forall b: Byte :: IsSpace(b) <==> b in [9, 10, 11, 12, 13, 32];
  }

  /** The loop itself. */
  method FeedLoop<T(!new)>(c: Codec<T>, file: Bytes, start: nat, accept: (nat, T) -> bool) returns (fed: Fed<T>)
    ensures fed == Feed(c, file, start, accept, 0)
  {
    var pos, taken: seq<Read<T>> := start, [];
    AlsoNothing(Feed(c, file, start, accept, 0));
    while pos < |file|
      invariant Also(taken, Feed(c, file, pos, accept, |taken|)) == Feed(c, file, start, accept, 0)
      decreases |file| - pos
    {
      var e := LineEnd(file, pos);
      var line := file[pos..e];
      if !Blank(line) {
        var span := c.decode(line);
        if span.None? {
          return Fed(pos, true, taken);
        }
        if !accept(|taken|, span.value) {
          return Fed(pos, false, taken);  // capacity is full; the cursor stays at this line
        }
        AlsoBoth(taken, [Read(pos, e, span.value)], Feed(c, file, e, accept, |taken| + 1));
        taken := taken + [Read(pos, e, span.value)];
      }
      pos := e;
    }
    fed := Fed(pos, false, taken);
  }

  lemma AlsoNothing<T>(fed: Fed<T>)
    ensures Also([], fed) == fed
  {
  }

  lemma AlsoBoth<T>(a: seq<Read<T>>, b: seq<Read<T>>, fed: Fed<T>)
    ensures Also(a, Also(b, fed)) == Also(a + b, fed)
  {
    assert a + (b + fed.taken) == (a + b) + fed.taken;
  }

  /** The loop came to the end of the file. */
  predicate AtEnd<T>(d: Disk, fed: Fed<T>) {
    !fed.raised && fed.pos >= |d.file|
  }

  /** What a drain leaves behind: an error leaves the disk alone, and a file that was read to its end is emptied. */
  function Drained<T>(d: Disk, fed: Fed<T>): Disk {
    if fed.raised then d.(consumed := fed.pos)
    else if AtEnd(d, fed) then Disk([], Some(0), 0)
    else d.(consumed := fed.pos, cursor := Some(fed.pos))
  }

  // ---- files that hold spans -----------------------------------------------

  /** How many spans of `fifo`, from the `k`-th on, are accepted before one is declined. */
  function AcceptedFrom<T(!new)>(fifo: seq<T>, accept: (nat, T) -> bool, k: nat): (n: nat)
    requires k <= |fifo|
    ensures k <= n <= |fifo|
    ensures forall i :: k <= i < n ==> accept(i, fifo[i])
    ensures n < |fifo| ==> !accept(n, fifo[n])
    decreases |fifo| - k
  {
    if k < |fifo| && accept(k, fifo[k]) then AcceptedFrom(fifo, accept, k + 1) else k
  }

  /** What a drain makes of a file of spans whose cursor is at span `next`. */
  lemma {:induction false} DrainContent<T(!new)>(c: Codec<T>, ts: seq<T>, next: nat, cursor: Option<nat>,
                                                 accept: (nat, T) -> bool)
    requires Faithful(c) && next <= |ts|
    ensures var d, m := Disk(Content(c, ts), cursor, Start(c, ts, next)), next + AcceptedFrom(ts[next..], accept, 0);
      Drained(d, Feed(c, d.file, d.consumed, accept, 0))
      == if m == |ts| then Disk([], Some(0), 0) else Disk(d.file, Some(Start(c, ts, m)), Start(c, ts, m))
  {
    FeedContent(c, ts, next, accept);
    AtEndIff(c, ts, next + AcceptedFrom(ts[next..], accept, 0));
  }

  /** The start of a record is the end of the file only behind the last one. */
  lemma {:induction false} AtEndIff<T(!new)>(c: Codec<T>, ts: seq<T>, i: nat)
    requires Faithful(c) && i <= |ts|
    ensures Start(c, ts, i) >= |Content(c, ts)| <==> i == |ts|
  {
    if i == |ts| {
      StartOfEnd(c, ts);
    } else {
      ReadRecord(c, ts, i);
    }
  }

  /** At offset `at[k]` there is a line that reads as `fifo[k]`, up to `at[k + 1]`. */
  ghost predicate LineAt<T(!new)>(c: Codec<T>, file: Bytes, fifo: seq<T>, at: seq<nat>, k: nat)
    requires k < |fifo| && |at| == |fifo| + 1
  {
    && at[k] < |file| && LineEnd(file, at[k]) == at[k + 1]
    && !Blank(file[at[k]..at[k + 1]]) && c.decode(file[at[k]..at[k + 1]]) == Some(fifo[k])
  }

  /** The loop on such lines. */
  lemma {:induction false} FeedFifo<T(!new)>(c: Codec<T>, file: Bytes, fifo: seq<T>, at: seq<nat>,
                                             accept: (nat, T) -> bool, n: nat)
    requires |at| == |fifo| + 1 && at[|fifo|] >= |file| && n <= |fifo|
    requires forall k :: 0 <= k < |fifo| ==> LineAt(c, file, fifo, at, k)
    ensures var fed, m := Feed(c, file, at[n], accept, n), AcceptedFrom(fifo, accept, n);
      && !fed.raised && fed.pos == at[m] && |fed.taken| == m - n
      && forall k :: 0 <= k < m - n ==> fed.taken[k] == Read(at[n + k], at[n + k + 1], fifo[n + k])
    decreases |fifo| - n
  {
    if n < |fifo| {
      assert LineAt(c, file, fifo, at, n);
      if accept(n, fifo[n]) {
        FeedFifo(c, file, fifo, at, accept, n + 1);
        assert Feed(c, file, at[n], accept, n)
            == Also([Read(at[n], at[n + 1], fifo[n])], Feed(c, file, at[n + 1], accept, n + 1));
      }
    }
  }

  /** On a file of spans the loop reads them in order until one is declined. */
  lemma {:induction false} FeedContent<T(!new)>(c: Codec<T>, ts: seq<T>, next: nat, accept: (nat, T) -> bool)
    requires Faithful(c) && next <= |ts|
    ensures var fed, m := Feed(c, Content(c, ts), Start(c, ts, next), accept, 0), AcceptedFrom(ts[next..], accept, 0);
      && !fed.raised && fed.pos == Start(c, ts, next + m) && |fed.taken| == m
      && forall k :: 0 <= k < m ==> fed.taken[k].span == ts[next + k]
  {
    var fifo, at := ts[next..], StartsOf(c, ts, next);
    StartOfEnd(c, ts);
    forall k | 0 <= k < |fifo| ensures LineAt(c, Content(c, ts), fifo, at, k) {
      ReadRecord(c, ts, next + k);
    }
    FeedFifo(c, Content(c, ts), fifo, at, accept, 0);
  }

  /** The starts of the records from the `next`-th on, and the end of the file. */
  ghost function StartsOf<T(!new)>(c: Codec<T>, ts: seq<T>, next: nat): (at: seq<nat>)
    requires next <= |ts|
    ensures |at| == |ts| - next + 1
    ensures forall k :: 0 <= k < |at| ==> at[k] == Start(c, ts, next + k)
  {
    Starts(c, ts, next) + [Start(c, ts, |ts|)]
  }
}
