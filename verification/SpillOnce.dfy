/**
 Delivery at most once: as long as the process is not restarted, no span is
 delivered twice or out of order, whatever was cut short and whatever a drain
 raised. Nothing is assumed of the codec.
 */
module SpillOnce {
  import opened Prelude
  import opened LineFile
  import opened SpillDisk
  import opened SpillRuns

  /** The process goes on. */
  predicate Alive<T(!new)>(op: Op<T>) {
    op.Add? || op.Take? || (op.Torn? && !op.crash)
  }

  predicate Ascending(ns: seq<nat>) {
    forall i, j :: 0 <= i < j < |ns| ==> ns[i] < ns[j]
  }

  /** The lines end in order, behind `lo` and not behind `hi`. */
  predicate EndBetween<T>(taken: seq<Read<T>>, lo: nat, hi: nat) {
    && (forall i :: 0 <= i < |taken| ==> lo < taken[i].to <= hi)
    && (forall i, j :: 0 <= i < j < |taken| ==> taken[i].to < taken[j].to)
  }

  /** A drain reads lines in order, between where it starts and where it stops. */
  lemma {:induction false} FeedAscends<T(!new)>(c: Codec<T>, file: Bytes, pos: nat, accept: (nat, T) -> bool, n: nat)
    ensures var fed := Feed(c, file, pos, accept, n); EndBetween(fed.taken, pos, fed.pos)
    decreases if pos < |file| then |file| - pos else 0
  {
    if pos < |file| {
      var e := LineEnd(file, pos);
      var line := file[pos..e];
      if Blank(line) {
        FeedAscends(c, file, e, accept, n);
      } else if c.decode(line).Some? && accept(n, c.decode(line).value) {
        FeedAscends(c, file, e, accept, n + 1);
      }
    }
  }

  /** The numbers are of spans whose lines end behind `lo` and not behind `hi`. */
  ghost predicate NumberedBetween<T>(log: Log<T>, ns: seq<nat>, lo: nat, hi: nat)
    requires |log.spans| == |log.ends|
  {
    forall i :: 0 <= i < |ns| ==>
      |log.archive| <= ns[i] < |log.archive| + |log.spans| && lo < log.ends[ns[i] - |log.archive|] <= hi
  }

  lemma {:induction false} NumbersAscend<T(!new)>(log: Log<T>, taken: seq<Read<T>>, lo: nat, hi: nat)
    requires |log.spans| == |log.ends| && Ascending(log.ends) && EndBetween(taken, lo, hi)
    ensures Ascending(Numbers(log, taken)) && NumberedBetween(log, Numbers(log, taken), lo, hi)
  {
    if taken != [] {
      var first, rest := taken[0], taken[1..];
      assert EndBetween(rest, first.to, hi);
      NumbersAscend(log, rest, first.to, hi);
      var i := Find(log, first, |log.spans|);
      if i.Some? {
        OneMore(log, i.value, Numbers(log, rest), first.to, lo, hi);
      }
    }
  }

  lemma {:induction false} OneMore<T>(log: Log<T>, i: nat, ns: seq<nat>, mid: nat, lo: nat, hi: nat)
    requires |log.spans| == |log.ends| && Ascending(log.ends) && i < |log.spans| && log.ends[i] == mid
    requires lo < mid <= hi && Ascending(ns) && NumberedBetween(log, ns, mid, hi)
    ensures Ascending([|log.archive| + i] + ns) && NumberedBetween(log, [|log.archive| + i] + ns, lo, hi)
  {
    forall j | 0 <= j < |ns| ensures |log.archive| + i < ns[j] {
      var k := ns[j] - |log.archive|;
      assert log.ends[i] < log.ends[k];
    }
  }

  /** What was delivered lies behind the cursor, and was so once and in order. */
  ghost predicate Once<T>(file: Bytes, consumed: nat, log: Log<T>) {
    && |log.spans| == |log.ends| && Ascending(log.ends) && Ascending(log.delivered)
    && (forall k :: 0 <= k < |log.ends| ==> 0 < log.ends[k] <= |file|)
    && (forall i :: 0 <= i < |log.delivered| ==> Behind(log, consumed, log.delivered[i]))
  }

  ghost predicate Behind<T>(log: Log<T>, consumed: nat, k: nat)
    requires |log.spans| == |log.ends|
  {
    k < |log.archive| || (k < |log.archive| + |log.spans| && log.ends[k - |log.archive|] <= consumed)
  }

  lemma {:induction false} OnceGrown<T(!new)>(file: Bytes, w: Bytes, consumed: nat, log: Log<T>)
    requires Once(file, consumed, log)
    ensures Once(file + w, consumed, log)
  {
  }

  lemma {:induction false} OnceAdded<T(!new)>(file: Bytes, line: Bytes, consumed: nat, log: Log<T>, span: T)
    requires Once(file, consumed, log) && line != []
    ensures Once(file + line, consumed, log.(spans := log.spans + [span], ends := log.ends + [|file| + |line|]))
  {
    var more := log.(spans := log.spans + [span], ends := log.ends + [|file| + |line|]);
    forall i | 0 <= i < |log.delivered| ensures Behind(more, consumed, log.delivered[i]) {
      assert Behind(log, consumed, log.delivered[i]);
    }
  }

  lemma {:induction false} OnceRead<T(!new)>(file: Bytes, consumed: nat, log: Log<T>, ns: seq<nat>, pos: nat)
    requires Once(file, consumed, log) && Ascending(ns) && NumberedBetween(log, ns, consumed, pos) && consumed <= pos
    ensures Once(file, pos, log.(delivered := log.delivered + ns))
  {
    var all := log.delivered + ns;
    forall i, j | 0 <= i < |log.delivered| && 0 <= j < |ns| ensures log.delivered[i] < ns[j] {
      assert Behind(log, consumed, log.delivered[i]);
      BehindIsBefore(log, consumed, log.delivered[i], ns[j]);
    }
    forall i | 0 <= i < |all| ensures Behind(log, pos, all[i]) {
      if i < |log.delivered| {
        assert Behind(log, consumed, log.delivered[i]);
      } else {
        assert all[i] == ns[i - |log.delivered|];
      }
    }
    OnceMore(file, pos, log, all);
  }

  lemma {:induction false} BehindIsBefore<T(!new)>(log: Log<T>, consumed: nat, k: nat, l: nat)
    requires |log.spans| == |log.ends| && Ascending(log.ends) && Behind(log, consumed, k)
    requires |log.archive| <= l < |log.archive| + |log.spans| && consumed < log.ends[l - |log.archive|]
    ensures k < l
  {
  }

  lemma {:induction false} OnceMore<T(!new)>(file: Bytes, pos: nat, log: Log<T>, all: seq<nat>)
    requires |log.spans| == |log.ends| && Ascending(log.ends) && Ascending(all)
    requires forall k :: 0 <= k < |log.ends| ==> 0 < log.ends[k] <= |file|
    requires forall i :: 0 <= i < |all| ==> Behind(log, pos, all[i])
    ensures Once(file, pos, log.(delivered := all))
  {
    var more := log.(delivered := all);
    forall i | 0 <= i < |all| ensures Behind(more, pos, all[i]) {
      assert Behind(log, pos, all[i]);
    }
  }

  lemma {:induction false} OnceEmptied<T(!new)>(file: Bytes, consumed: nat, log: Log<T>)
    requires Once(file, consumed, log)
    ensures Once([], 0, log.(archive := log.archive + log.spans, spans := [], ends := []))
  {
    forall i | 0 <= i < |log.delivered| ensures log.delivered[i] < |log.archive| + |log.spans| {
      assert Behind(log, consumed, log.delivered[i]);
    }
  }

  lemma {:induction false} OnceTake<T(!new)>(c: Codec<T>, d: Disk, log: Log<T>, op: Op<T>)
    requires Once(d.file, d.consumed, log) && op.Take?
    ensures var d' := NextDisk(c, d, op); Once(d'.file, d'.consumed, NextLog(c, d, log, op))
  {
    var fed := Reading(c, d, op);
    FeedAscends(c, d.file, d.consumed, op.accept, 0);
    NumbersAscend(log, fed.taken, d.consumed, fed.pos);
    OnceRead(d.file, d.consumed, log, Numbers(log, fed.taken), fed.pos);
    if AtEnd(d, fed) {
      OnceEmptied(d.file, fed.pos, log.(delivered := log.delivered + Numbers(log, fed.taken)));
    }
  }

  lemma {:induction false} OnceStep<T(!new)>(c: Codec<T>, d: Disk, log: Log<T>, op: Op<T>)
    requires Once(d.file, d.consumed, log) && Alive(op)
    ensures var d' := NextDisk(c, d, op); Once(d'.file, d'.consumed, NextLog(c, d, log, op))
  {
    match op
    case Add(span) => OnceAdded(d.file, Line(c, span), d.consumed, log, span);
    case Torn(span, j, _) =>
      OnceGrown(d.file, Fragment(c, span, j), d.consumed, log);
      assert log.(delivered := log.delivered + []) == log;
    case Take(_) => OnceTake(c, d, log, op);
  }

  /** Without a restart, delivery is at most once and in the order of appending. */
  lemma {:induction false} AtMostOnce<T(!new)>(c: Codec<T>, ops: seq<Op<T>>, n: nat)
    requires n <= |ops| && forall m :: 0 <= m < n ==> Alive(ops[m])
    ensures Ascending(SysAfter(c, ops, n).log.delivered)
    ensures var s := SysAfter(c, ops, n); Once(s.disk.file, s.disk.consumed, s.log)
  {
    if n > 0 {
      AtMostOnce(c, ops, n - 1);
      var s := SysAfter(c, ops, n - 1);
      OnceStep(c, s.disk, s.log, ops[n - 1]);
    }
  }
}
