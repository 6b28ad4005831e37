/**
 Runs of the spill file that lose nothing: every span is appended where the
 line that the reader will find reads as that span.
 */
module SpillSound {
  import opened Prelude
  import opened LineFile
  import opened SpillDisk
  import opened Spill
  import opened SpillRuns

  /** From `p` on the file is one line that reads as the span. */
  ghost predicate ReadsAs<T(!new)>(c: Codec<T>, file: Bytes, p: nat, span: T) {
    p < |file| && !Blank(file[p..]) && c.decode(file[p..]) == Some(span)
  }

  /**
   If the span is appended now, the line that the reader will find at the end
   of the file reads as that span.
   */
  ghost predicate Fits<T(!new)>(c: Codec<T>, d: Disk, span: T) {
    ReadsAs(c, d.file + Line(c, span), Tail(d.file, d.consumed), span)
  }

  // ---- what the reader will find -------------------------------------------

  ghost predicate EndsOk(file: Bytes, ends: seq<nat>) {
    && (forall k :: 0 <= k < |ends| ==> 0 < ends[k] <= |file| && file[ends[k] - 1] == NL)
    && (forall k, l :: 0 <= k < l < |ends| ==> ends[k] < ends[l])
  }

  /** From `pos` on, the lines that have their newline are those of the spans from the `i`-th on. */
  ghost predicate Holds<T(!new)>(c: Codec<T>, file: Bytes, spans: seq<T>, ends: seq<nat>, pos: nat, i: nat)
    requires |ends| == |spans|
    decreases |spans| - i
  {
    if i >= |spans| then i == |spans| && Tail(file, pos) == pos
    else
      && pos < |file|
      && var e := LineEnd(file, pos);
         && e == ends[i] && file[e - 1] == NL
         && !Blank(file[pos..e]) && c.decode(file[pos..e]) == Some(spans[i])
         && Holds(c, file, spans, ends, e, i + 1)
  }

  /**
   Both cursors see the spans that were not delivered: the one in memory those
   from the `i`-th on, the saved one those from the `j`-th on.
   */
  ghost predicate SoundAt<T(!new)>(c: Codec<T>, file: Bytes, consumed: nat, saved: nat, log: Log<T>, i: nat, j: nat) {
    && |log.ends| == |log.spans| && EndsOk(file, log.ends) && j <= i <= |log.spans|
    && Holds(c, file, log.spans, log.ends, consumed, i) && Holds(c, file, log.spans, log.ends, saved, j)
    && Tail(file, consumed) == Tail(file, saved)
    && HandedOut(log.delivered, |log.archive| + i)
  }

  ghost predicate Sound<T(!new)>(c: Codec<T>, s: Sys<T>, i: nat, j: nat) {
    SoundAt(c, s.disk.file, s.disk.consumed, Saved(s.disk), s.log, i, j)
  }

  // ---- reading -------------------------------------------------------------

  lemma {:induction false} FindAt<T(!new)>(log: Log<T>, r: Read<T>, i: nat, n: nat)
    requires |log.ends| == |log.spans| && i < n <= |log.spans|
    requires forall k, l :: 0 <= k < l < |log.ends| ==> log.ends[k] < log.ends[l]
    requires log.ends[i] == r.to && log.spans[i] == r.span
    ensures Find(log, r, n) == Some(i)
    decreases n
  {
    if i < n - 1 {
      FindAt(log, r, i, n - 1);
    }
  }

  lemma {:induction false} NumbersFirst<T(!new)>(log: Log<T>, r: Read<T>, more: seq<Read<T>>, i: nat, hi: nat)
    requires |log.ends| == |log.spans| && Find(log, r, |log.spans|) == Some(i) && i < hi
    requires Numbers(log, more) == Range(|log.archive| + i + 1, |log.archive| + hi)
    ensures Numbers(log, [r] + more) == Range(|log.archive| + i, |log.archive| + hi)
  {
    assert ([r] + more)[1..] == more;
  }

  /** Where the loop stopped: before the end of the file, span `i'` is due there. */
  ghost predicate StopsAt<T(!new)>(c: Codec<T>, file: Bytes, spans: seq<T>, ends: seq<nat>, pos: nat, fed: Fed<T>,
                                   i': nat) {
    && |ends| == |spans| && i' <= |spans|
    && (fed.raised || fed.pos < |file| ==>
        Holds(c, file, spans, ends, fed.pos, i') && Tail(file, fed.pos) == Tail(file, pos))
    && (fed.raised ==> Tail(file, pos) < |file|)
    && (!fed.raised && fed.pos >= |file| ==> i' == |spans|)
  }

  /** From where span `i` is due, the loop delivers the spans up to some `i'` and perhaps reads an unfinished line. */
  lemma {:induction false} FeedHolds<T(!new)>(c: Codec<T>, file: Bytes, log: Log<T>, pos: nat, i: nat,
                                              accept: (nat, T) -> bool, n: nat)
    returns (i': nat)
    requires |log.ends| == |log.spans| && EndsOk(file, log.ends) && i <= |log.spans|
    requires Holds(c, file, log.spans, log.ends, pos, i)
    ensures i <= i' && StopsAt(c, file, log.spans, log.ends, pos, Feed(c, file, pos, accept, n), i')
    ensures Numbers(log, Feed(c, file, pos, accept, n).taken) == Range(|log.archive| + i, |log.archive| + i')
    decreases |log.spans| - i, 1
  {
    if i < |log.spans| {
      i' := FeedHoldsDue(c, file, log, pos, i, accept, n);
    } else {
      i' := i;
      if pos < |file| {
        FeedTail(c, file, log, pos, accept, n);
      }
    }
  }

  lemma {:induction false} FeedHoldsDue<T(!new)>(c: Codec<T>, file: Bytes, log: Log<T>, pos: nat, i: nat,
                                                 accept: (nat, T) -> bool, n: nat)
    returns (i': nat)
    requires |log.ends| == |log.spans| && EndsOk(file, log.ends) && i < |log.spans|
    requires Holds(c, file, log.spans, log.ends, pos, i)
    ensures i <= i' && StopsAt(c, file, log.spans, log.ends, pos, Feed(c, file, pos, accept, n), i')
    ensures Numbers(log, Feed(c, file, pos, accept, n).taken) == Range(|log.archive| + i, |log.archive| + i')
    decreases |log.spans| - i, 0
  {
    var e, span := LineEnd(file, pos), log.spans[i];
    FeedDue(c, file, pos, span, accept, n);
    if accept(n, span) {
      i' := FeedHolds(c, file, log, e, i + 1, accept, n + 1);
      FeedOne(c, file, log, pos, i, e, Feed(c, file, e, accept, n + 1), i');
    } else {
      i' := i;
      StopsHere(c, file, log, pos, i);
    }
  }

  lemma {:induction false} StopsHere<T(!new)>(c: Codec<T>, file: Bytes, log: Log<T>, pos: nat, i: nat)
    requires |log.ends| == |log.spans| && i < |log.spans| && pos < |file|
    requires Holds(c, file, log.spans, log.ends, pos, i)
    ensures StopsAt(c, file, log.spans, log.ends, pos, Fed(pos, false, []), i)
    ensures Numbers(log, []) == Range(|log.archive| + i, |log.archive| + i)
  {
  }

  /** The loop at a line that reads as a span. */
  lemma {:induction false} FeedDue<T(!new)>(c: Codec<T>, file: Bytes, pos: nat, span: T, accept: (nat, T) -> bool, n: nat)
    requires pos < |file|
    requires var line := file[pos..LineEnd(file, pos)]; !Blank(line) && c.decode(line) == Some(span)
    ensures var e := LineEnd(file, pos);
      Feed(c, file, pos, accept, n)
      == if accept(n, span) then Also([Read(pos, e, span)], Feed(c, file, e, accept, n + 1)) else Fed(pos, false, [])
  {
  }

  lemma {:induction false} FeedOne<T(!new)>(c: Codec<T>, file: Bytes, log: Log<T>, pos: nat, i: nat, e: nat,
                                            fed: Fed<T>, i': nat)
    requires |log.ends| == |log.spans| && EndsOk(file, log.ends) && i < |log.spans| && i < i'
    requires pos < |file| && e == LineEnd(file, pos) == log.ends[i] && file[e - 1] == NL
    requires StopsAt(c, file, log.spans, log.ends, e, fed, i')
    requires Numbers(log, fed.taken) == Range(|log.archive| + i + 1, |log.archive| + i')
    ensures var r := Read(pos, e, log.spans[i]);
      && StopsAt(c, file, log.spans, log.ends, pos, Also([r], fed), i')
      && Numbers(log, Also([r], fed).taken) == Range(|log.archive| + i, |log.archive| + i')
  {
    var r := Read(pos, e, log.spans[i]);
    FindAt(log, r, i, |log.spans|);
    NumbersFirst(log, r, fed.taken, i, i');
    StopsLater(c, file, log.spans, log.ends, pos, e, fed, i', r);
  }

  lemma {:induction false} StopsLater<T(!new)>(c: Codec<T>, file: Bytes, spans: seq<T>, ends: seq<nat>, pos: nat,
                                               e: nat, fed: Fed<T>, i': nat, r: Read<T>)
    requires StopsAt(c, file, spans, ends, e, fed, i')
    requires pos < |file| && e == LineEnd(file, pos) && file[e - 1] == NL
    ensures StopsAt(c, file, spans, ends, pos, Also([r], fed), i')
  {
  }

  /** An unfinished line is none of the spans. */
  lemma {:induction false} FeedTail<T(!new)>(c: Codec<T>, file: Bytes, log: Log<T>, pos: nat,
                                             accept: (nat, T) -> bool, n: nat)
    requires |log.ends| == |log.spans| && EndsOk(file, log.ends) && pos < |file| && Tail(file, pos) == pos
    ensures var fed := Feed(c, file, pos, accept, n);
      && Numbers(log, fed.taken) == []
      && (fed.pos == pos || (!fed.raised && fed.pos >= |file|))
  {
    var e := LineEnd(file, pos);
    assert file[e - 1] != NL;
    LineEndOpen(file, pos);
    var span := c.decode(file[pos..e]);
    if !Blank(file[pos..e]) && span.Some? && accept(n, span.value) {
      assert Find(log, Read(pos, e, span.value), |log.spans|).None?;
    }
  }

  // ---- appending -----------------------------------------------------------

  /** A fragment leaves the lines of the spans alone. */
  lemma {:induction false} HoldsTorn<T(!new)>(c: Codec<T>, file: Bytes, w: Bytes, spans: seq<T>, ends: seq<nat>,
                                              pos: nat, i: nat)
    requires |ends| == |spans| && NL !in w && Holds(c, file, spans, ends, pos, i)
    ensures Holds(c, file + w, spans, ends, pos, i)
    decreases |spans| - i
  {
    if i < |spans| {
      LineEndKept(file, w, pos);
      HoldsTorn(c, file, w, spans, ends, LineEnd(file, pos), i + 1);
    } else {
      TailTorn(file, w, pos);
    }
  }

  /** A span that fits is the last of the lines. */
  lemma {:induction false} HoldsAdded<T(!new)>(c: Codec<T>, file: Bytes, spans: seq<T>, ends: seq<nat>, span: T,
                                               pos: nat, i: nat, all: Bytes)
    requires LineOk(c, span) && |ends| == |spans| && i <= |spans| && Holds(c, file, spans, ends, pos, i)
    requires all == file + Line(c, span) && ReadsAs(c, all, Tail(file, pos), span)
    ensures Holds(c, all, spans + [span], ends + [|all|], pos, i)
    decreases |spans| - i
  {
    var spans', ends' := spans + [span], ends + [|all|];
    if i < |spans| {
      LineEndKept(file, Line(c, span), pos);
      HoldsAdded(c, file, spans, ends, span, LineEnd(file, pos), i + 1, all);
      assert spans'[i] == spans[i] && ends'[i] == ends[i];
    } else {
      AddedLast(c, file, span, pos);
      TailAdded(file, c.encode(span), |all|);
      assert Holds(c, all, spans', ends', |all|, i + 1);
    }
  }

  /** From the tail, the line of an appended span goes to the end of the file. */
  lemma {:induction false} AddedLast<T(!new)>(c: Codec<T>, file: Bytes, span: T, pos: nat)
    requires LineOk(c, span) && Tail(file, pos) == pos < |file| + |Line(c, span)|
    ensures var all := file + Line(c, span);
      LineEnd(all, pos) == |all| && all[|all| - 1] == NL && all[pos..LineEnd(all, pos)] == all[pos..]
  {
    if pos < |file| {
      LineEndOpen(file, pos);
    }
    LineEndJoined(file, c.encode(span), pos);
  }

  lemma {:induction false} EndsAdded(file: Bytes, line: Bytes, ends: seq<nat>, all: Bytes)
    requires EndsOk(file, ends) && line != [] && line[|line| - 1] == NL && all == file + line
    ensures EndsOk(all, ends + [|all|])
  {
    var ends' := ends + [|all|];
    assert all[|all| - 1] == NL;
    forall k | 0 <= k < |ends| ensures ends'[k] == ends[k] && all[ends[k] - 1] == NL {
      assert all[ends[k] - 1] == file[ends[k] - 1];
    }
  }

  lemma {:induction false} EndsTorn(file: Bytes, w: Bytes, ends: seq<nat>)
    requires EndsOk(file, ends)
    ensures EndsOk(file + w, ends)
  {
    forall k | 0 <= k < |ends| ensures (file + w)[ends[k] - 1] == NL {
      assert (file + w)[ends[k] - 1] == file[ends[k] - 1];
    }
  }

  /** Cursors with the same tail have the same one after a line is appended behind it. */
  lemma {:induction false} TailsAdded(file: Bytes, text: Bytes, a: nat, b: nat)
    requires NL !in text && Tail(file, a) == Tail(file, b) < |file| + |text| + 1
    ensures Tail(file + (text + [NL]), a) == Tail(file + (text + [NL]), b)
  {
    TailAdded(file, text, a);
    TailAdded(file, text, b);
  }

  // ---- every step that appends where it fits keeps everything --------------

  lemma {:induction false} AddKeeps<T(!new)>(c: Codec<T>, file: Bytes, consumed: nat, saved: nat, log: Log<T>, span: T,
                                             i: nat, j: nat, all: Bytes, spans: seq<T>, ends: seq<nat>)
    requires LineOk(c, span) && SoundAt(c, file, consumed, saved, log, i, j) && all == file + Line(c, span)
    requires spans == log.spans + [span] && ends == log.ends + [|all|]
    requires ReadsAs(c, all, Tail(file, consumed), span)
    ensures EndsOk(all, ends) && Tail(all, consumed) == Tail(all, saved)
    ensures Holds(c, all, spans, ends, consumed, i) && Holds(c, all, spans, ends, saved, j)
  {
    EndsAdded(file, Line(c, span), log.ends, all);
    HoldsAdded(c, file, log.spans, log.ends, span, consumed, i, all);
    HoldsAdded(c, file, log.spans, log.ends, span, saved, j, all);
    TailsAdded(file, c.encode(span), consumed, saved);
  }

  lemma {:induction false} TornKeeps<T(!new)>(c: Codec<T>, file: Bytes, consumed: nat, saved: nat, log: Log<T>,
                                              w: Bytes, i: nat, j: nat)
    requires SoundAt(c, file, consumed, saved, log, i, j) && NL !in w
    ensures SoundAt(c, file + w, consumed, saved, log, i, j)
  {
    EndsTorn(file, w, log.ends);
    HoldsTorn(c, file, w, log.spans, log.ends, consumed, i);
    HoldsTorn(c, file, w, log.spans, log.ends, saved, j);
    TailTorn(file, w, consumed);
    TailTorn(file, w, saved);
  }

  lemma {:induction false} ReopenKeeps<T(!new)>(c: Codec<T>, file: Bytes, consumed: nat, saved: nat, log: Log<T>,
                                                i: nat, j: nat)
    requires SoundAt(c, file, consumed, saved, log, i, j)
    ensures SoundAt(c, file, saved, saved, log, j, j)
  {
  }

  /** A drain that does not empty the file, with and without its cursor saved. */
  lemma {:induction false} DrainKeeps<T(!new)>(c: Codec<T>, file: Bytes, consumed: nat, saved: nat, log: Log<T>,
                                               i: nat, j: nat, fed: Fed<T>, k: nat)
    requires SoundAt(c, file, consumed, saved, log, i, j) && i <= k
    requires StopsAt(c, file, log.spans, log.ends, consumed, fed, k)
    ensures var more := log.(delivered := log.delivered + Range(|log.archive| + i, |log.archive| + k));
      && SoundAt(c, file, saved, saved, more, j, j)
      && (fed.raised || fed.pos < |file| ==>
          SoundAt(c, file, fed.pos, saved, more, k, j) && SoundAt(c, file, fed.pos, fed.pos, more, k, k))
  {
    HandedOutMore(log.delivered, |log.archive| + i, k - i);
  }

  /** An empty file holds nothing, whatever the cursor. */
  lemma {:induction false} EmptyKeeps<T(!new)>(c: Codec<T>, log: Log<T>, delivered: seq<nat>, pos: nat)
    requires HandedOut(delivered, |log.archive| + |log.spans|)
    ensures SoundAt(c, [], pos, pos, Log(log.archive + log.spans, [], [], delivered), 0, 0)
  {
  }

  /** What the log becomes when the spans from the `i`-th to before the `k`-th are delivered. */
  ghost function Delivered<T>(log: Log<T>, i: nat, k: nat): Log<T>
    requires i <= k
  {
    log.(delivered := log.delivered + Range(|log.archive| + i, |log.archive| + k))
  }

  ghost function Archived<T>(log: Log<T>): Log<T> {
    Log(log.archive + log.spans, [], [], log.delivered)
  }

  lemma {:induction false} EmptiedKeeps<T(!new)>(c: Codec<T>, file: Bytes, consumed: nat, saved: nat, log: Log<T>,
                                                 i: nat, j: nat, pos: nat)
    requires SoundAt(c, file, consumed, saved, log, i, j)
    ensures SoundAt(c, [], pos, pos, Archived(Delivered(log, i, |log.spans|)), 0, 0)
  {
    HandedOutMore(log.delivered, |log.archive| + i, |log.spans| - i);
    EmptyKeeps(c, log, Delivered(log, i, |log.spans|).delivered, pos);
  }

  /** The three drains, by what they read. */
  lemma {:induction false} TakeStep<T(!new)>(c: Codec<T>, s: Sys<T>, op: Op<T>, fed: Fed<T>, i: nat, k: nat)
    requires op.Take? && |s.log.ends| == |s.log.spans| && i <= k <= |s.log.spans|
    requires fed == Reading(c, s.disk, op) && Numbers(s.log, fed.taken) == Range(|s.log.archive| + i, |s.log.archive| + k)
    ensures Step(c, s, op) ==
      if fed.raised then Sys(s.disk.(consumed := fed.pos), Delivered(s.log, i, k))
      else if fed.pos < |s.disk.file| then Sys(Disk(s.disk.file, Some(fed.pos), fed.pos), Delivered(s.log, i, k))
      else Sys(Disk([], Some(0), 0), Archived(Delivered(s.log, i, k)))
  {
  }

  lemma {:induction false} CrashStep<T(!new)>(c: Codec<T>, s: Sys<T>, op: Op<T>, fed: Fed<T>, i: nat, k: nat)
    requires (op.Interrupted? || op.Compacted?) && |s.log.ends| == |s.log.spans| && i <= k <= |s.log.spans|
    requires fed == Reading(c, s.disk, op) && Numbers(s.log, fed.taken) == Range(|s.log.archive| + i, |s.log.archive| + k)
    ensures Step(c, s, op) ==
      if op.Compacted? && AtEnd(s.disk, fed)
      then Sys(Disk([], s.disk.cursor, Saved(s.disk)), Archived(Delivered(s.log, i, k)))
      else Sys(Reopened(s.disk), Delivered(s.log, i, k))
  {
  }

  lemma {:induction false} StepTake<T(!new)>(c: Codec<T>, s: Sys<T>, op: Op<T>, i: nat, j: nat)
    returns (i': nat, j': nat)
    requires Sound(c, s, i, j) && op.Take?
    ensures Sound(c, Step(c, s, op), i', j')
  {
    var d, log, fed := s.disk, s.log, Reading(c, s.disk, op);
    var k := FeedHolds(c, d.file, log, d.consumed, i, op.accept, 0);
    TakeStep(c, s, op, fed, i, k);
    if AtEnd(d, fed) {
      i', j' := 0, 0;
      EmptiedKeeps(c, d.file, d.consumed, Saved(d), log, i, j, 0);
    } else {
      DrainKeeps(c, d.file, d.consumed, Saved(d), log, i, j, fed, k);
      i', j' := k, if fed.raised then j else k;
    }
  }

  lemma {:induction false} StepCrash<T(!new)>(c: Codec<T>, s: Sys<T>, op: Op<T>, i: nat, j: nat) returns (i': nat)
    requires Sound(c, s, i, j) && (op.Interrupted? || op.Compacted?)
    ensures Sound(c, Step(c, s, op), i', i')
  {
    var d, log, fed := s.disk, s.log, Reading(c, s.disk, op);
    var k := FeedHolds(c, d.file, log, d.consumed, i, op.accept, 0);
    CrashStep(c, s, op, fed, i, k);
    if op.Compacted? && AtEnd(d, fed) {
      i' := 0;
      EmptiedKeeps(c, d.file, d.consumed, Saved(d), log, i, j, Saved(d));
    } else {
      i' := j;
      DrainKeeps(c, d.file, d.consumed, Saved(d), log, i, j, fed, k);
    }
  }

  lemma {:induction false} FragmentOpen<T(!new)>(c: Codec<T>, span: T, j: nat)
    requires Faithful(c)
    ensures NL !in Fragment(c, span, j)
  {
    assert LineOk(c, span);
  }

  lemma {:induction false} NothingRead<T(!new)>(c: Codec<T>, s: Sys<T>, op: Op<T>)
    requires |s.log.ends| == |s.log.spans| && (op.Torn? || op.Restart?)
    ensures Step(c, s, op).log == s.log
  {
    assert s.log.delivered + [] == s.log.delivered;
  }

  lemma {:induction false} StepTorn<T(!new)>(c: Codec<T>, s: Sys<T>, op: Op<T>, i: nat, j: nat) returns (i': nat)
    requires Faithful(c) && Sound(c, s, i, j) && op.Torn?
    ensures Sound(c, Step(c, s, op), i', j)
  {
    var d, w := s.disk, Fragment(c, op.span, op.j);
    i' := if op.crash then j else i;
    NothingRead(c, s, op);
    FragmentOpen(c, op.span, op.j);
    TornKeeps(c, d.file, d.consumed, Saved(d), s.log, w, i, j);
    ReopenKeeps(c, d.file + w, d.consumed, Saved(d), s.log, i, j);
  }

  ghost function AddedTo<T>(s: Sys<T>, line: Bytes, span: T): Sys<T> {
    Sys(s.disk.(file := s.disk.file + line),
        s.log.(spans := s.log.spans + [span], ends := s.log.ends + [|s.disk.file + line|]))
  }

  lemma {:induction false} AddStep<T(!new)>(c: Codec<T>, s: Sys<T>, op: Op<T>)
    requires op.Add? && |s.log.ends| == |s.log.spans|
    ensures Step(c, s, op) == AddedTo(s, Line(c, op.span), op.span)
  {
  }

  lemma {:induction false} AddedSound<T(!new)>(c: Codec<T>, s: Sys<T>, span: T, i: nat, j: nat)
    requires Faithful(c) && Sound(c, s, i, j) && Fits(c, s.disk, span)
    ensures Sound(c, AddedTo(s, Line(c, span), span), i, j)
  {
    var t := AddedTo(s, Line(c, span), span);
    assert LineOk(c, span);
    AddKeeps(c, s.disk.file, s.disk.consumed, Saved(s.disk), s.log, span, i, j, t.disk.file, t.log.spans, t.log.ends);
  }

  lemma {:induction false} StepRestart<T(!new)>(c: Codec<T>, s: Sys<T>, op: Op<T>, i: nat, j: nat)
    requires Sound(c, s, i, j) && op.Restart?
    ensures Sound(c, Step(c, s, op), j, j)
  {
    NothingRead(c, s, op);
    ReopenKeeps(c, s.disk.file, s.disk.consumed, Saved(s.disk), s.log, i, j);
  }

  lemma {:induction false} StepKeeps<T(!new)>(c: Codec<T>, s: Sys<T>, op: Op<T>, i: nat, j: nat, t: Sys<T>)
    returns (i': nat, j': nat)
    requires Faithful(c) && Sound(c, s, i, j) && (op.Add? ==> Fits(c, s.disk, op.span)) && t == Step(c, s, op)
    ensures Sound(c, t, i', j')
  {
    i', j' := i, j;
    if op.Add? {
      AddStep(c, s, op);
      AddedSound(c, s, op.span, i, j);
    } else if op.Torn? {
      i' := StepTorn(c, s, op, i, j);
    } else if op.Restart? {
      StepRestart(c, s, op, i, j);
      i' := j;
    } else if op.Take? {
      i', j' := StepTake(c, s, op, i, j);
    } else {
      i' := StepCrash(c, s, op, i, j);
      j' := i';
    }
  }

  /** Every span of the first `n` operations was appended where it fits. */
  ghost predicate FitsUpTo<T(!new)>(c: Codec<T>, ops: seq<Op<T>>, n: nat) {
    n <= |ops| && (n == 0 || (FitsUpTo(c, ops, n - 1) && FitsAt(c, ops, n - 1)))
  }

  /** The `m`-th operation appends nothing, or a span where it fits. */
  ghost predicate FitsAt<T(!new)>(c: Codec<T>, ops: seq<Op<T>>, m: nat)
    requires m < |ops|
  {
    ops[m].Add? ==> Fits(c, SysAfter(c, ops, m).disk, ops[m].span)
  }

  lemma {:induction false} StartSound<T(!new)>(c: Codec<T>, ops: seq<Op<T>>)
    ensures Sound(c, SysAfter(c, ops, 0), 0, 0)
  {
  }

  lemma {:induction false} RunKeeps<T(!new)>(c: Codec<T>, ops: seq<Op<T>>, n: nat) returns (i: nat, j: nat)
    requires Faithful(c) && FitsUpTo(c, ops, n)
    ensures Sound(c, SysAfter(c, ops, n), i, j)
  {
    if n == 0 {
      i, j := 0, 0;
      StartSound(c, ops);
    } else {
      i, j := RunKeeps(c, ops, n - 1);
      i, j := StepKeeps(c, SysAfter(c, ops, n - 1), ops[n - 1], i, j, SysAfter(c, ops, n));
    }
  }
}
