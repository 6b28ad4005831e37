/**
 Whole runs of the spill file: appends, drains and restarts, with crashes at
 every point of a drain and in the middle of an append. The runs that lose a
 span are told apart exactly.
 */
module SpillRuns {
  import opened Prelude
  import opened LineFile
  import opened SpillDisk

  /**
   `Torn` writes the first `j` bytes of a line, at most the text without its
   newline, and then stops the process or fails. `Interrupted` stops it in a drain before anything
   was written, `Compacted` between emptying the file and writing the cursor.
   */
  datatype Op<!T> =
    | Add(span: T)
    | Torn(span: T, j: nat, crash: bool)
    | Take(accept: (nat, T) -> bool)
    | Restart
    | Interrupted(accept: (nat, T) -> bool)
    | Compacted(accept: (nat, T) -> bool)

  // ---- the disk ------------------------------------------------------------

  function Fragment<T(!new)>(c: Codec<T>, span: T, j: nat): Bytes {
    if j <= |c.encode(span)| then c.encode(span)[..j] else c.encode(span)
  }

  /** What the reading loop does, if the operation is a drain that gets to it. */
  function Reading<T(!new)>(c: Codec<T>, d: Disk, op: Op<T>): Fed<T> {
    if op.Take? || op.Interrupted? || op.Compacted? then Feed(c, d.file, d.consumed, op.accept, 0)
    else Fed(d.consumed, false, [])
  }

  /** The operation empties the file. */
  predicate Empties<T(!new)>(c: Codec<T>, d: Disk, op: Op<T>) {
    (op.Take? || op.Compacted?) && AtEnd(d, Reading(c, d, op))
  }

  function NextDisk<T(!new)>(c: Codec<T>, d: Disk, op: Op<T>): Disk {
    match op
    case Add(span) => d.(file := d.file + Line(c, span))
    case Torn(span, j, crash) =>
      var t := d.(file := d.file + Fragment(c, span, j));
      if crash then Reopened(t) else t
    case Take(_) => Drained(d, Reading(c, d, op))
    case Restart => Reopened(d)
    case Interrupted(_) => Reopened(d)
    case Compacted(_) => Reopened(if Empties(c, d, op) then d.(file := []) else d)
  }

  /** The operations carried out. */
  method RunOps<T(!new)>(c: Codec<T>, ops: seq<Op<T>>) returns (d: Disk)
    ensures d == SysAfter(c, ops, |ops|).disk
  {
    var file: Bytes, cursor: Option<nat>, consumed: nat := [], None, 0;
    for n := 0 to |ops|
      invariant Disk(file, cursor, consumed) == SysAfter(c, ops, n).disk
    {
      match ops[n]
      case Add(span) => file := file + (c.encode(span) + [NL]);
      case Torn(span, j, crash) =>
        file := file + Fragment(c, span, j);
        if crash {
          consumed := if cursor.None? then 0 else cursor.value;
        }
      case Take(accept) =>
        var fed := FeedLoop(c, file, consumed, accept);
        consumed := fed.pos;
        if !fed.raised {
          if consumed >= |file| {
            file, consumed := [], 0;
          }
          cursor := Some(consumed);
        }
      case Restart => consumed := if cursor.None? then 0 else cursor.value;
      case Interrupted(accept) =>
        var fed := FeedLoop(c, file, consumed, accept);
        consumed := if cursor.None? then 0 else cursor.value;
      case Compacted(accept) =>
        var fed := FeedLoop(c, file, consumed, accept);
        if !fed.raised && fed.pos >= |file| {
          file := [];
        }
        consumed := if cursor.None? then 0 else cursor.value;
    }
    d := Disk(file, cursor, consumed);
  }

  // ---- what was appended and delivered -------------------------------------

  /**
   The spans of emptied files, those of the present file with the offsets at
   which their lines end, and the numbers of the delivered ones in order.
   */
  datatype Log<T> = Log(archive: seq<T>, spans: seq<T>, ends: seq<nat>, delivered: seq<nat>)

  /** The span whose line ends where this one does and which it decodes to. */
  ghost function Find<T(!new)>(log: Log<T>, r: Read<T>, n: nat): (i: Option<nat>)
    requires n <= |log.spans| == |log.ends|
    ensures i.Some? ==> i.value < n && log.ends[i.value] == r.to && log.spans[i.value] == r.span
  {
    if n == 0 then None
    else if log.ends[n - 1] == r.to && log.spans[n - 1] == r.span then Some(n - 1)
    else Find(log, r, n - 1)
  }

  /** The numbers of the spans that were read; a line that is none of them has no number. */
  ghost function Numbers<T(!new)>(log: Log<T>, taken: seq<Read<T>>): seq<nat>
    requires |log.spans| == |log.ends|
  {
    if taken == [] then []
    else
      var i := Find(log, taken[0], |log.spans|);
      (if i.Some? then [|log.archive| + i.value] else []) + Numbers(log, taken[1..])
  }

  datatype Sys<T> = Sys(disk: Disk, log: Log<T>)

  ghost function NextLog<T(!new)>(c: Codec<T>, d: Disk, log: Log<T>, op: Op<T>): (r: Log<T>)
    requires |log.spans| == |log.ends|
    ensures |r.spans| == |r.ends|
  {
    if op.Add? then log.(spans := log.spans + [op.span], ends := log.ends + [|d.file| + |Line(c, op.span)|])
    else
      var more := log.(delivered := log.delivered + Numbers(log, Reading(c, d, op).taken));
      if Empties(c, d, op) then more.(archive := log.archive + log.spans, spans := [], ends := []) else more
  }

  ghost function Step<T(!new)>(c: Codec<T>, s: Sys<T>, op: Op<T>): (r: Sys<T>)
    requires |s.log.spans| == |s.log.ends|
    ensures |r.log.spans| == |r.log.ends|
  {
    Sys(NextDisk(c, s.disk, op), NextLog(c, s.disk, s.log, op))
  }

  ghost function SysAfter<T(!new)>(c: Codec<T>, ops: seq<Op<T>>, n: nat): (r: Sys<T>)
    requires n <= |ops|
    ensures |r.log.spans| == |r.log.ends|
  {
    if n == 0 then Sys(Disk([], None, 0), Log([], [], [], [])) else Step(c, SysAfter(c, ops, n - 1), ops[n - 1])
  }

  function Appended<T>(log: Log<T>): seq<T> {
    log.archive + log.spans
  }

  /** The spans that the first `n` operations append. */
  function Added<T>(ops: seq<Op<T>>, n: nat): seq<T>
    requires n <= |ops|
  {
    if n == 0 then []
    else Added(ops, n - 1) + (if ops[n - 1].Add? then [ops[n - 1].span] else [])
  }

  lemma {:induction false} AppendedIsAdded<T(!new)>(c: Codec<T>, ops: seq<Op<T>>, n: nat)
    requires n <= |ops|
    ensures Appended(SysAfter(c, ops, n).log) == Added(ops, n)
  {
    if n > 0 {
      AppendedIsAdded(c, ops, n - 1);
    }
  }

  // ---- lines ---------------------------------------------------------------

  /** Where the lines from `pos` on end that have a newline: the start of an unfinished line, or `pos` beyond the end. */
  function Tail(file: Bytes, pos: nat): (p: nat)
    ensures p >= pos
    decreases if pos < |file| then |file| - pos else 0
  {
    if pos >= |file| then pos
    else
      var e := LineEnd(file, pos);
      if file[e - 1] == NL then Tail(file, e) else pos
  }

  /** A line that has its newline does not change when the file grows. */
  lemma {:induction false} LineEndKept(file: Bytes, w: Bytes, pos: nat)
    requires pos < |file| && file[LineEnd(file, pos) - 1] == NL
    ensures LineEnd(file + w, pos) == LineEnd(file, pos)
    ensures (file + w)[pos..LineEnd(file, pos)] == file[pos..LineEnd(file, pos)]
    decreases |file| - pos
  {
    if file[pos] != NL {
      assert pos + 1 < |file|;
      LineEndKept(file, w, pos + 1);
    }
  }

  /** An unfinished line goes on to the end of the file. */
  lemma {:induction false} LineEndOpen(file: Bytes, pos: nat)
    requires pos < |file| && file[LineEnd(file, pos) - 1] != NL
    ensures LineEnd(file, pos) == |file| && forall k :: pos <= k < |file| ==> file[k] != NL
    decreases |file| - pos
  {
    if pos + 1 < |file| {
      LineEndOpen(file, pos + 1);
    }
  }

  /** From the tail on, and from inside a text without newlines, the next newline is the first of what is appended. */
  lemma {:induction false} LineEndJoined(file: Bytes, text: Bytes, pos: nat)
    requires pos < |file| + |text| + 1 && NL !in text
    requires forall k :: pos <= k < |file| ==> file[k] != NL
    ensures LineEnd(file + (text + [NL]), pos) == |file| + |text| + 1
  {
    var all := file + (text + [NL]);
    var e := |file| + |text|;
    forall k | pos <= k < e ensures all[k] != NL {
      if k >= |file| {
        assert all[k] == text[k - |file|];
      }
    }
    LineEndAt(all, pos, e);
  }

  lemma {:induction false} LineEndNone(file: Bytes, pos: nat)
    requires pos < |file| && forall k :: pos <= k < |file| ==> file[k] != NL
    ensures LineEnd(file, pos) == |file|
    decreases |file| - pos
  {
    if pos + 1 < |file| {
      LineEndNone(file, pos + 1);
    }
  }

  /** A fragment without a newline leaves the tail where it is. */
  lemma {:induction false} TailTorn(file: Bytes, w: Bytes, pos: nat)
    requires NL !in w
    ensures Tail(file + w, pos) == Tail(file, pos)
    decreases if pos < |file| then |file| - pos else 0
  {
    if pos < |file| && file[LineEnd(file, pos) - 1] == NL {
      LineEndKept(file, w, pos);
      TailTorn(file, w, LineEnd(file, pos));
    } else if pos < |file| + |w| {
      if pos < |file| {
        LineEndOpen(file, pos);
      }
      var all := file + w;
      forall k | pos <= k < |all| ensures all[k] != NL {
        if k >= |file| {
          assert all[k] == w[k - |file|];
        }
      }
      LineEndNone(all, pos);
    }
  }

  /** A whole line puts it at the end. */
  lemma {:induction false} TailAdded(file: Bytes, text: Bytes, pos: nat)
    requires NL !in text
    ensures var all := file + (text + [NL]);
      Tail(all, pos) == if pos < |all| then |all| else pos
    decreases if pos < |file| then |file| - pos else 0
  {
    var all := file + (text + [NL]);
    if pos < |file| && file[LineEnd(file, pos) - 1] == NL {
      LineEndKept(file, text + [NL], pos);
      TailAdded(file, text, LineEnd(file, pos));
    } else if pos < |all| {
      if pos < |file| {
        LineEndOpen(file, pos);
      }
      LineEndJoined(file, text, pos);
      assert all[|all| - 1] == NL;
    }
  }
}
