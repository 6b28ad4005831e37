/**
 Runs of the spill file that lose a span: those in which some span is appended
 where the line that the reader will find does not read as that span.
 */
module SpillLoss {
  import opened Prelude
  import opened LineFile
  import opened SpillDisk
  import opened Spill
  import opened SpillRuns
  import opened SpillSound

  // ---- a span that is out of reach -----------------------------------------

  /** Reading from `pos` on, no line that ends at `to` reads as the span. */
  ghost predicate Missed<T(!new)>(c: Codec<T>, file: Bytes, pos: nat, to: nat, span: T)
    decreases if pos < |file| then |file| - pos else 0
  {
    pos >= to || pos >= |file| ||
    var e := LineEnd(file, pos);
    if e == to then Blank(file[pos..e]) || c.decode(file[pos..e]) != Some(span) else Missed(c, file, e, to, span)
  }

  /** None of the lines is that of the span. */
  predicate NotTaken<T(==)>(taken: seq<Read<T>>, to: nat, span: T) {
    forall k :: 0 <= k < |taken| ==> taken[k].to != to || taken[k].span != span
  }

  lemma {:induction false} FeedMisses<T(!new)>(c: Codec<T>, file: Bytes, pos: nat, to: nat, span: T,
                                               accept: (nat, T) -> bool, n: nat)
    requires Missed(c, file, pos, to, span)
    ensures var fed := Feed(c, file, pos, accept, n);
      Missed(c, file, fed.pos, to, span) && NotTaken(fed.taken, to, span)
    decreases if pos < |file| then |file| - pos else 0
  {
    if pos < |file| {
      var e := LineEnd(file, pos);
      assert Missed(c, file, e, to, span);
      if Blank(file[pos..e]) {
        FeedMisses(c, file, e, to, span, accept, n);
      } else if c.decode(file[pos..e]).Some? {
        FeedMisses(c, file, e, to, span, accept, n + 1);
      }
    }
  }

  lemma {:induction false} NewlineBounds(file: Bytes, pos: nat, to: nat)
    requires pos < to <= |file| && file[to - 1] == NL
    ensures LineEnd(file, pos) <= to && file[LineEnd(file, pos) - 1] == NL
    decreases |file| - pos
  {
    if file[pos] != NL {
      NewlineBounds(file, pos + 1, to);
    }
  }

  /** What is missed stays missed when the file grows. */
  lemma {:induction false} MissedKept<T(!new)>(c: Codec<T>, file: Bytes, w: Bytes, pos: nat, to: nat, span: T)
    requires 0 < to <= |file| && file[to - 1] == NL && Missed(c, file, pos, to, span)
    ensures Missed(c, file + w, pos, to, span)
    decreases if pos < |file| then |file| - pos else 0
  {
    if pos < to {
      NewlineBounds(file, pos, to);
      LineEndKept(file, w, pos);
      if LineEnd(file, pos) != to {
        MissedKept(c, file, w, LineEnd(file, pos), to, span);
      }
    }
  }

  /** A span that does not fit is missed. */
  lemma {:induction false} MissedAdded<T(!new)>(c: Codec<T>, file: Bytes, pos: nat, span: T)
    requires LineOk(c, span) && !ReadsAs(c, file + Line(c, span), Tail(file, pos), span)
    ensures Missed(c, file + Line(c, span), pos, |file| + |Line(c, span)|, span)
    decreases if pos < |file| then |file| - pos else 0
  {
    var all := file + Line(c, span);
    if pos < |file| && file[LineEnd(file, pos) - 1] == NL {
      LineEndKept(file, Line(c, span), pos);
      MissedAdded(c, file, LineEnd(file, pos), span);
    } else if pos < |all| {
      AddedLast(c, file, span, pos);
    }
  }

  /** Span `k` was not delivered, and its file was emptied or no cursor leads to it. */
  ghost predicate LostAt<T(!new)>(c: Codec<T>, file: Bytes, consumed: nat, saved: nat, log: Log<T>, k: nat) {
    && |log.ends| == |log.spans| && k !in log.delivered
    && (k < |log.archive| || Unreachable(c, file, consumed, saved, log, k - |log.archive|))
  }

  ghost predicate Unreachable<T(!new)>(c: Codec<T>, file: Bytes, consumed: nat, saved: nat, log: Log<T>, i: nat) {
    && i < |log.spans| == |log.ends|
    && 0 < log.ends[i] <= |file| && file[log.ends[i] - 1] == NL
    && Missed(c, file, consumed, log.ends[i], log.spans[i]) && Missed(c, file, saved, log.ends[i], log.spans[i])
  }

  ghost predicate Lost<T(!new)>(c: Codec<T>, s: Sys<T>, k: nat) {
    LostAt(c, s.disk.file, s.disk.consumed, Saved(s.disk), s.log, k)
  }

  lemma {:induction false} NumbersMiss<T(!new)>(log: Log<T>, taken: seq<Read<T>>, k: nat)
    requires |log.ends| == |log.spans|
    requires k < |log.archive| ||
      (k - |log.archive| < |log.spans| && NotTaken(taken, log.ends[k - |log.archive|], log.spans[k - |log.archive|]))
    ensures k !in Numbers(log, taken)
    decreases |taken|
  {
    if taken != [] {
      assert k >= |log.archive| ==>
        taken[0].to != log.ends[k - |log.archive|] || taken[0].span != log.spans[k - |log.archive|];
      NumbersMiss(log, taken[1..], k);
    }
  }

  // ---- a lost span stays lost ----------------------------------------------

  lemma {:induction false} LostAppend<T(!new)>(c: Codec<T>, file: Bytes, w: Bytes, consumed: nat, saved: nat,
                                               log: Log<T>, more: Log<T>, k: nat)
    requires LostAt(c, file, consumed, saved, log, k)
    requires more.archive == log.archive && more.delivered == log.delivered && |more.ends| == |more.spans|
    requires log.spans <= more.spans && log.ends <= more.ends
    ensures LostAt(c, file + w, consumed, saved, more, k)
  {
    if k >= |log.archive| {
      var i := k - |log.archive|;
      assert (file + w)[log.ends[i] - 1] == file[log.ends[i] - 1];
      MissedKept(c, file, w, consumed, log.ends[i], log.spans[i]);
      MissedKept(c, file, w, saved, log.ends[i], log.spans[i]);
    }
  }

  /** Reading does not deliver it, and no cursor that results leads to it. */
  lemma {:induction false} LostRead<T(!new)>(c: Codec<T>, file: Bytes, consumed: nat, saved: nat, log: Log<T>, k: nat,
                                             accept: (nat, T) -> bool)
    requires LostAt(c, file, consumed, saved, log, k)
    ensures var fed := Feed(c, file, consumed, accept, 0);
      var more := log.(delivered := log.delivered + Numbers(log, fed.taken));
      && k !in more.delivered
      && LostAt(c, file, fed.pos, saved, more, k) && LostAt(c, file, fed.pos, fed.pos, more, k)
      && LostAt(c, file, saved, saved, more, k)
  {
    var fed := Feed(c, file, consumed, accept, 0);
    if k >= |log.archive| {
      var i := k - |log.archive|;
      FeedMisses(c, file, consumed, log.ends[i], log.spans[i], accept, 0);
    }
    NumbersMiss(log, fed.taken, k);
    LostMoves(c, file, consumed, saved, log, k, fed.pos, Numbers(log, fed.taken));
  }

  lemma {:induction false} LostMoves<T(!new)>(c: Codec<T>, file: Bytes, consumed: nat, saved: nat, log: Log<T>, k: nat,
                                              pos: nat, ns: seq<nat>)
    requires LostAt(c, file, consumed, saved, log, k) && k !in ns
    requires k >= |log.archive| ==> Missed(c, file, pos, log.ends[k - |log.archive|], log.spans[k - |log.archive|])
    ensures var more := log.(delivered := log.delivered + ns);
      && LostAt(c, file, pos, saved, more, k) && LostAt(c, file, pos, pos, more, k)
      && LostAt(c, file, saved, saved, more, k)
  {
  }

  lemma {:induction false} LostEmptied<T(!new)>(c: Codec<T>, file: Bytes, consumed: nat, saved: nat, log: Log<T>,
                                                k: nat, pos: nat)
    requires LostAt(c, file, consumed, saved, log, k)
    ensures LostAt(c, [], pos, pos, Archived(log), k)
  {
  }

  lemma {:induction false} LostDrain<T(!new)>(c: Codec<T>, s: Sys<T>, op: Op<T>, k: nat)
    requires Lost(c, s, k) && (op.Take? || op.Interrupted? || op.Compacted?)
    ensures Lost(c, Step(c, s, op), k)
  {
    var d, log := s.disk, s.log;
    var fed := Feed(c, d.file, d.consumed, op.accept, 0);
    var more := log.(delivered := log.delivered + Numbers(log, fed.taken));
    LostRead(c, d.file, d.consumed, Saved(d), log, k, op.accept);
    if Empties(c, d, op) {
      LostEmptied(c, d.file, fed.pos, Saved(d), more, k, NextDisk(c, d, op).consumed);
      assert Step(c, s, op).log == Archived(more);
    } else {
      assert Step(c, s, op).log == more;
    }
  }

  lemma {:induction false} LostAdd<T(!new)>(c: Codec<T>, s: Sys<T>, op: Op<T>, k: nat)
    requires Lost(c, s, k) && op.Add?
    ensures Lost(c, Step(c, s, op), k)
  {
    AddStep(c, s, op);
    LostAppend(c, s.disk.file, Line(c, op.span), s.disk.consumed, Saved(s.disk), s.log, Step(c, s, op).log, k);
  }

  lemma {:induction false} LostTorn<T(!new)>(c: Codec<T>, s: Sys<T>, op: Op<T>, k: nat)
    requires Lost(c, s, k) && (op.Torn? || op.Restart?)
    ensures Lost(c, Step(c, s, op), k)
  {
    NothingRead(c, s, op);
    if op.Torn? {
      LostAppend(c, s.disk.file, Fragment(c, op.span, op.j), s.disk.consumed, Saved(s.disk), s.log, s.log, k);
    }
  }

  /** Whatever happens next, a lost span is not delivered. */
  lemma {:induction false} LostStays<T(!new)>(c: Codec<T>, s: Sys<T>, op: Op<T>, k: nat)
    requires Lost(c, s, k)
    ensures Lost(c, Step(c, s, op), k)
  {
    if op.Add? {
      LostAdd(c, s, op, k);
    } else if op.Torn? || op.Restart? {
      LostTorn(c, s, op, k);
    } else {
      LostDrain(c, s, op, k);
    }
  }

  /** A span that is appended where it does not fit is lost at once. */
  lemma {:induction false} UnfitIsLost<T(!new)>(c: Codec<T>, s: Sys<T>, op: Op<T>, i: nat, j: nat)
    requires Faithful(c) && Sound(c, s, i, j) && op.Add? && !Fits(c, s.disk, op.span)
    requires |Appended(s.log)| !in s.log.delivered
    ensures Lost(c, Step(c, s, op), |Appended(s.log)|)
  {
    var d, t := s.disk, Step(c, s, op);
    AddStep(c, s, op);
    assert LineOk(c, op.span);
    MissedAdded(c, d.file, d.consumed, op.span);
    MissedAdded(c, d.file, Saved(d), op.span);
    assert t.disk.file[|t.disk.file| - 1] == NL;
  }

  // ---- the numbers that were delivered -------------------------------------

  ghost predicate Below(delivered: seq<nat>, n: nat) {
    forall i :: 0 <= i < |delivered| ==> delivered[i] < n
  }

  lemma {:induction false} NumbersBelow<T(!new)>(log: Log<T>, taken: seq<Read<T>>)
    requires |log.ends| == |log.spans|
    ensures Below(Numbers(log, taken), |Appended(log)|)
    decreases |taken|
  {
    if taken != [] {
      NumbersBelow(log, taken[1..]);
    }
  }

  /** Only spans that were appended are delivered. */
  lemma {:induction false} DeliveredBelow<T(!new)>(c: Codec<T>, ops: seq<Op<T>>, n: nat)
    requires n <= |ops|
    ensures var log := SysAfter(c, ops, n).log; Below(log.delivered, |Appended(log)|)
  {
    if n > 0 {
      DeliveredBelow(c, ops, n - 1);
      var s := SysAfter(c, ops, n - 1);
      NumbersBelow(s.log, Reading(c, s.disk, ops[n - 1]).taken);
    }
  }

  // ---- exactly which runs lose a span --------------------------------------

  lemma {:induction false} RunLoses<T(!new)>(c: Codec<T>, ops: seq<Op<T>>, n: nat) returns (k: nat)
    requires Faithful(c) && n <= |ops| && !FitsUpTo(c, ops, n)
    ensures k < |Added(ops, n)| && Lost(c, SysAfter(c, ops, n), k)
  {
    var s := SysAfter(c, ops, n - 1);
    if FitsUpTo(c, ops, n - 1) {
      var i, j := RunKeeps(c, ops, n - 1);
      DeliveredBelow(c, ops, n - 1);
      AppendedIsAdded(c, ops, n - 1);
      k := |Appended(s.log)|;
      UnfitIsLost(c, s, ops[n - 1], i, j);
    } else {
      k := RunLoses(c, ops, n - 1);
      LostStays(c, s, ops[n - 1], k);
    }
  }

  /** A line that is due is not missed. */
  lemma {:induction false} HoldsReads<T(!new)>(c: Codec<T>, file: Bytes, spans: seq<T>, ends: seq<nat>, pos: nat,
                                               i: nat, k: nat)
    requires |ends| == |spans| && EndsOk(file, ends) && i <= k < |spans| && Holds(c, file, spans, ends, pos, i)
    ensures !Missed(c, file, pos, ends[k], spans[k])
    decreases k - i
  {
    assert LineEnd(file, pos) == ends[i] <= ends[k];
    if i < k {
      HoldsReads(c, file, spans, ends, LineEnd(file, pos), i + 1, k);
    }
  }

  lemma {:induction false} SoundLosesNone<T(!new)>(c: Codec<T>, s: Sys<T>, i: nat, j: nat, k: nat)
    requires Sound(c, s, i, j)
    ensures !Lost(c, s, k)
  {
    var d, log := s.disk, s.log;
    if |log.archive| + i <= k < |log.archive| + |log.spans| {
      HoldsReads(c, d.file, log.spans, log.ends, d.consumed, i, k - |log.archive|);
    }
  }

  /**
   Over any run of appends, drains, restarts and crashes at any point of them:
   no span is lost exactly if every span was appended where it fits.
   */
  lemma {:induction false} LossIff<T(!new)>(c: Codec<T>, ops: seq<Op<T>>, n: nat)
    requires Faithful(c) && n <= |ops|
    ensures FitsUpTo(c, ops, n) <==> LosesNone(c, SysAfter(c, ops, n))
  {
    var s := SysAfter(c, ops, n);
    if FitsUpTo(c, ops, n) {
      var i, j := RunKeeps(c, ops, n);
      forall k ensures !Lost(c, s, k) {
        SoundLosesNone(c, s, i, j, k);
      }
    } else {
      var k := RunLoses(c, ops, n);
      assert Lost(c, s, k);
    }
  }

  ghost predicate LosesNone<T(!new)>(c: Codec<T>, s: Sys<T>) {
    forall k :: !Lost(c, s, k)
  }

  // ---- runs without a crash inside an operation ----------------------------

  predicate Whole<T(!new)>(op: Op<T>) {
    op.Add? || op.Take? || op.Restart?
  }

  /** The file has no unfinished line, the cursor is saved, and what was delivered was so once and in order. */
  ghost predicate Clean<T(!new)>(c: Codec<T>, s: Sys<T>, i: nat) {
    && Sound(c, s, i, i) && s.disk.consumed == Saved(s.disk) && Tail(s.disk.file, s.disk.consumed) == |s.disk.file|
    && s.log.delivered == Range(0, |s.log.archive| + i)
  }

  lemma {:induction false} CleanFits<T(!new)>(c: Codec<T>, d: Disk, span: T)
    requires Faithful(c) && Tail(d.file, d.consumed) == |d.file|
    ensures Fits(c, d, span)
  {
    assert LineOk(c, span);
    assert (d.file + Line(c, span))[|d.file|..] == Line(c, span);
    NotBlank(c.encode(span), Line(c, span));
  }

  lemma {:induction false} CleanAdd<T(!new)>(c: Codec<T>, s: Sys<T>, op: Op<T>, i: nat)
    requires Faithful(c) && Clean(c, s, i) && op.Add?
    ensures Fits(c, s.disk, op.span) && Clean(c, Step(c, s, op), i)
  {
    CleanFits(c, s.disk, op.span);
    AddStep(c, s, op);
    AddedSound(c, s, op.span, i, i);
    assert LineOk(c, op.span);
    TailAdded(s.disk.file, c.encode(op.span), s.disk.consumed);
  }

  lemma {:induction false} CleanTake<T(!new)>(c: Codec<T>, s: Sys<T>, op: Op<T>, i: nat) returns (i': nat)
    requires Clean(c, s, i) && op.Take?
    ensures Clean(c, Step(c, s, op), i')
  {
    var d, log, fed := s.disk, s.log, Reading(c, s.disk, op);
    var k := FeedHolds(c, d.file, log, d.consumed, i, op.accept, 0);
    TakeStep(c, s, op, fed, i, k);
    if AtEnd(d, fed) {
      i' := 0;
      CleanEmptied(c, s, i);
    } else {
      i' := k;
      CleanDrained(c, s, fed, i, k);
    }
  }

  lemma {:induction false} CleanDrained<T(!new)>(c: Codec<T>, s: Sys<T>, fed: Fed<T>, i: nat, k: nat)
    requires Clean(c, s, i) && i <= k && StopsAt(c, s.disk.file, s.log.spans, s.log.ends, s.disk.consumed, fed, k)
    requires fed.raised || fed.pos < |s.disk.file|
    ensures !fed.raised && Clean(c, Sys(Disk(s.disk.file, Some(fed.pos), fed.pos), Delivered(s.log, i, k)), k)
  {
    RangeJoin(0, |s.log.archive| + i, |s.log.archive| + k);
    DrainKeeps(c, s.disk.file, s.disk.consumed, Saved(s.disk), s.log, i, i, fed, k);
  }

  lemma {:induction false} CleanEmptied<T(!new)>(c: Codec<T>, s: Sys<T>, i: nat)
    requires Clean(c, s, i)
    ensures Clean(c, Sys(Disk([], Some(0), 0), Archived(Delivered(s.log, i, |s.log.spans|))), 0)
  {
    RangeJoin(0, |s.log.archive| + i, |s.log.archive| + |s.log.spans|);
    EmptiedKeeps(c, s.disk.file, s.disk.consumed, Saved(s.disk), s.log, i, i, 0);
  }

  /**
   Without a crash inside an operation: every span was appended where it fits,
   those before the head were delivered once and in the order of appending, and
   the others are what the reader will find.
   */
  lemma {:induction false} RunInOrder<T(!new)>(c: Codec<T>, ops: seq<Op<T>>, n: nat) returns (i: nat)
    requires Faithful(c) && n <= |ops| && forall m :: 0 <= m < n ==> Whole(ops[m])
    ensures FitsUpTo(c, ops, n) && Clean(c, SysAfter(c, ops, n), i)
  {
    if n == 0 {
      i := 0;
      StartSound(c, ops);
    } else {
      i := RunInOrder(c, ops, n - 1);
      i := InOrderStep(c, ops, n, i);
    }
  }

  lemma {:induction false} InOrderStep<T(!new)>(c: Codec<T>, ops: seq<Op<T>>, n: nat, i: nat) returns (i': nat)
    requires Faithful(c) && 0 < n <= |ops| && Whole(ops[n - 1])
    requires FitsUpTo(c, ops, n - 1) && Clean(c, SysAfter(c, ops, n - 1), i)
    ensures FitsUpTo(c, ops, n) && Clean(c, SysAfter(c, ops, n), i')
  {
    i' := CleanStep(c, SysAfter(c, ops, n - 1), ops[n - 1], i, SysAfter(c, ops, n));
  }

  lemma {:induction false} CleanStep<T(!new)>(c: Codec<T>, s: Sys<T>, op: Op<T>, i: nat, t: Sys<T>) returns (i': nat)
    requires Faithful(c) && Clean(c, s, i) && Whole(op) && t == Step(c, s, op)
    ensures Clean(c, t, i') && (op.Add? ==> Fits(c, s.disk, op.span))
  {
    i' := i;
    if op.Add? {
      CleanAdd(c, s, op, i);
    } else if op.Take? {
      i' := CleanTake(c, s, op, i);
    } else {
      NothingRead(c, s, op);
    }
  }

  // ---- two runs that lose a span -------------------------------------------

  /**
   What holds of the text of a span as an object with a fixed first field: it
   does not begin with a space, other text in front of its line keeps the line
   from being decoded, and so does a missing beginning.
   */
  ghost predicate Textual<T(!new)>(c: Codec<T>) {
    && (forall t: T :: !Blank(c.encode(t)) && !IsSpace(c.encode(t)[0]))
    && (forall w: Bytes, t: T :: !Blank(w) && NL !in w ==> c.decode(w + Line(c, t)).None?)
    && (forall t: T, j: nat :: 0 < j <= |Line(c, t)| ==> c.decode(Line(c, t)[j..]) != Some(t))
  }

  /** Behind a fragment no span fits, and its line cannot be decoded. */
  lemma {:induction false} BehindFragment<T(!new)>(c: Codec<T>, d: Disk, span: T)
    requires Textual(c) && d.consumed < |d.file| && Tail(d.file, d.consumed) == d.consumed
    requires !Blank(d.file[d.consumed..])
    ensures !Fits(c, d, span) && c.decode((d.file + Line(c, span))[d.consumed..]).None?
  {
    var w := d.file[d.consumed..];
    LineEndOpen(d.file, d.consumed);
    assert NL !in w;
    assert (d.file + Line(c, span))[d.consumed..] == w + Line(c, span);
  }

  /** Over a file that was emptied under a cursor that is not zero none does. */
  lemma {:induction false} BeyondEnd<T(!new)>(c: Codec<T>, d: Disk, span: T)
    requires Textual(c) && d.file == [] && d.consumed > 0
    ensures !Fits(c, d, span)
  {
    assert [] + Line(c, span) == Line(c, span);
  }

  lemma {:induction false} FragmentNotBlank<T(!new)>(c: Codec<T>, span: T, j: nat)
    requires Textual(c) && 0 < j <= |c.encode(span)|
    ensures Fragment(c, span, j) != [] && !Blank(Fragment(c, span, j))
  {
    assert !IsSpace(c.encode(span)[0]);
    assert Fragment(c, span, j)[0] == c.encode(span)[0];
  }

  /** The line at both cursors cannot be decoded. */
  ghost predicate Jammed<T(!new)>(c: Codec<T>, d: Disk) {
    && d.consumed == Saved(d) < |d.file|
    && var e := LineEnd(d.file, d.consumed);
       d.file[e - 1] == NL && !Blank(d.file[d.consumed..e]) && c.decode(d.file[d.consumed..e]).None?
  }

  /** Then every drain raises an error, delivers nothing and leaves it so, whatever is appended. */
  lemma {:induction false} JamStays<T(!new)>(c: Codec<T>, d: Disk, op: Op<T>)
    requires Jammed(c, d)
    ensures Jammed(c, NextDisk(c, d, op)) && Reading(c, d, op).taken == []
    ensures op.Take? || op.Interrupted? || op.Compacted? ==> Reading(c, d, op).raised
  {
    match op
    case Add(span) => LineEndKept(d.file, Line(c, span), d.consumed);
    case Torn(span, j, _) => LineEndKept(d.file, Fragment(c, span, j), d.consumed);
    case _ =>
  }

  /**
   An append that is cut short, by a crash or an error, and another one behind
   it: the second span is lost, and the file is jammed for good.
   */
  lemma {:induction false} TornRun<T(!new)>(c: Codec<T>, t: T, j: nat, crash: bool, u: T)
    requires Faithful(c) && Textual(c) && 0 < j <= |c.encode(t)|
    ensures var ops := [Torn(t, j, crash), Add(u)];
      !FitsUpTo(c, ops, 2) && Jammed(c, SysAfter(c, ops, 2).disk)
  {
    var ops: seq<Op<T>> := [Torn(t, j, crash), Add(u)];
    var w := Fragment(c, t, j);
    var d0 := SysAfter(c, ops, 0).disk;
    assert SysAfter(c, ops, 1) == Step(c, SysAfter(c, ops, 0), ops[0]);
    var d := SysAfter(c, ops, 1).disk;
    assert d0.file + w == w;
    assert d == Disk(w, None, 0);
    FragmentNotBlank(c, t, j);
    FragmentOpen(c, t, j);
    LineEndNone(w, 0);
    assert w[0..] == w;
    BehindFragment(c, d, u);
    TornJams(c, w, u);
    assert SysAfter(c, ops, 2) == Step(c, SysAfter(c, ops, 1), ops[1]);
    assert !FitsAt(c, ops, 1);
  }

  lemma {:induction false} TornJams<T(!new)>(c: Codec<T>, w: Bytes, u: T)
    requires Faithful(c) && Textual(c) && w != [] && NL !in w && !Blank(w)
    ensures Jammed(c, Disk(w + Line(c, u), None, 0))
  {
    var file := w + Line(c, u);
    assert LineOk(c, u);
    LineEndJoined(w, c.encode(u), 0);
    assert file[0..|file|] == file && file[|file| - 1] == NL;
    NotBlank(w, file);
  }

  /** The first span is taken and passed by the saved cursor; then the second, but the cursor is not written. */
  function StaleOps<T>(a: T, b: T, z: T): seq<Op<T>> {
    [Add(a), Add(b), Take((n: nat, t: T) => n == 0), Compacted((n: nat, t: T) => true), Add(z)]
  }

  lemma {:induction false} TwoAdded<T(!new)>(c: Codec<T>, a: T, b: T, z: T)
    ensures SysAfter(c, StaleOps(a, b, z), 2).disk == Disk(Content(c, [a, b]), None, 0)
  {
    var ops := StaleOps(a, b, z);
    assert SysAfter(c, ops, 1) == Step(c, SysAfter(c, ops, 0), ops[0]);
    assert SysAfter(c, ops, 2) == Step(c, SysAfter(c, ops, 1), ops[1]);
    assert [a, b][..1] == [a] && [a][..0] == [];
    assert Content(c, [a]) == [] + Line(c, a);
    assert Content(c, [a, b]) == Content(c, [a]) + Line(c, b);
  }

  lemma {:induction false} OneTaken<T(!new)>(c: Codec<T>, a: T, b: T, z: T)
    requires Faithful(c)
    ensures var p := |Line(c, a)|; SysAfter(c, StaleOps(a, b, z), 3).disk == Disk(Content(c, [a, b]), Some(p), p)
  {
    var ops, ts := StaleOps(a, b, z), [a, b];
    TwoAdded(c, a, b, z);
    assert SysAfter(c, ops, 3) == Step(c, SysAfter(c, ops, 2), ops[2]);
    assert ts[0..] == ts && ts[..0] == [] && ts[..1] == [a] && [a][..0] == [];
    assert AcceptedFrom(ts, ops[2].accept, 1) == 1;
    assert AcceptedFrom(ts, ops[2].accept, 0) == 1;
    DrainContent(c, ts, 0, None, ops[2].accept);
  }

  lemma {:induction false} AllTaken<T(!new)>(c: Codec<T>, a: T, b: T, z: T)
    requires Faithful(c)
    ensures var p := |Line(c, a)|; SysAfter(c, StaleOps(a, b, z), 4).disk == Disk([], Some(p), p)
  {
    var ops, ts := StaleOps(a, b, z), [a, b];
    OneTaken(c, a, b, z);
    assert SysAfter(c, ops, 4) == Step(c, SysAfter(c, ops, 3), ops[3]);
    assert ts[..1] == [a] && [a][..0] == [] && ts[1..] == [b];
    assert AcceptedFrom([b], ops[3].accept, 1) == 1;
    assert Content(c, [a]) == [] + Line(c, a);
    CompactContent(c, ts, 1, Some(|Line(c, a)|), ops[3]);
  }

  lemma {:induction false} CompactContent<T(!new)>(c: Codec<T>, ts: seq<T>, next: nat, cursor: Option<nat>, op: Op<T>)
    requires Faithful(c) && next <= |ts| && op.Compacted? && next + AcceptedFrom(ts[next..], op.accept, 0) == |ts|
    ensures var d := Disk(Content(c, ts), cursor, Start(c, ts, next));
      NextDisk(c, d, op) == Reopened(d.(file := []))
  {
    FeedContent(c, ts, next, op.accept);
    StartOfEnd(c, ts);
  }

  /** A crash between emptying the file and writing the cursor, and an append behind it: the span is lost. */
  lemma {:induction false} StaleRun<T(!new)>(c: Codec<T>, a: T, b: T, z: T)
    requires Faithful(c) && Textual(c)
    ensures !FitsUpTo(c, StaleOps(a, b, z), 5)
  {
    AllTaken(c, a, b, z);
    BeyondEnd(c, SysAfter(c, StaleOps(a, b, z), 4).disk, z);
    assert !FitsAt(c, StaleOps(a, b, z), 4);
  }
}
