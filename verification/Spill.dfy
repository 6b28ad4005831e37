/**
 The durable overflow buffer: an append-only file of spans with a byte cursor.
 It is shown to be a first-in first-out queue. Spans are numbered in the order
 in which they were appended; `delivered` records which numbers were handed
 out, in order.
 */
module Spill {
  import opened Prelude
  import opened LineFile
  import opened SpillDisk

  /** The numbers from `lo` up to but not including `hi`. */
  function Range(lo: nat, hi: nat): (r: seq<nat>)
    requires lo <= hi
    ensures |r| == hi - lo
    ensures forall i :: 0 <= i < hi - lo ==> r[i] == lo + i
    decreases hi - lo
  {
    if lo == hi then [] else [lo] + Range(lo + 1, hi)
  }

  lemma RangeJoin(lo: nat, mid: nat, hi: nat)
    requires lo <= mid <= hi
    ensures Range(lo, mid) + Range(mid, hi) == Range(lo, hi)
  {
  }

  ghost predicate HandedOut(delivered: seq<nat>, head: nat) {
    forall i :: 0 <= i < head ==> i in delivered
  }

  class SpillBuffer<T(!new)> {
    const codec: Codec<T>
    // on disk
    var file: Bytes
    var cursor: Option<nat>
    // in memory
    var consumed: nat

    ghost var archive: seq<T>      // spans compacted away, in append order
    ghost var spans: seq<T>        // spans in the file
    ghost var next: nat            // how many of those are consumed
    ghost var saved: nat           // how many of those the cursor on disk covers
    ghost var delivered: seq<nat>  // numbers of the accepted spans, in order of delivery

    ghost predicate Valid()
      reads this
    {
      && Faithful(codec)
      && saved <= next <= |spans|
      && file == Content(codec, spans)
      && consumed == Start(codec, spans, next)
      && Saved(OnDisk()) == Start(codec, spans, saved)
      && HandedOut(delivered, Head())
    }

    /** Every span ever appended. */
    ghost function Appended(): seq<T>
      reads this
    {
      archive + spans
    }

    /** The number of the first span not yet consumed. */
    ghost function Head(): nat
      reads this
    {
      |archive| + next
    }

    ghost function Fifo(): seq<T>
      requires Valid()
      reads this
    {
      spans[next..]
    }

    function OnDisk(): Disk
      reads this
    {
      Disk(file, cursor, consumed)
    }

    constructor (codec: Codec<T>)
      requires Faithful(codec)
      ensures Valid() && this.codec == codec
      ensures Appended() == [] && delivered == [] && Head() == 0 && saved == next
    {
      this.codec := codec;
      file, cursor, consumed := [], None, 0;
      archive, spans, next, saved, delivered := [], [], 0, 0, [];
    }

    method Append(span: T)
      requires Valid()
      modifies this
      ensures Valid() && Fifo() == old(Fifo()) + [span]
      ensures Appended() == old(Appended()) + [span]
      ensures delivered == old(delivered) && Head() == old(Head())
      ensures spans == old(spans) + [span] && saved == old(saved) && next == old(next)
      ensures OnDisk() == old(OnDisk()).(file := old(file) + Line(codec, span))
    {
      file := file + (codec.encode(span) + [NL]);
      AppendKeeps(codec, spans, span, next);
      AppendKeeps(codec, spans, span, saved);
      spans := spans + [span];
    }

    /** Count the non-blank lines from the cursor on. */
    method Pending() returns (n: nat)
      requires Valid()
      ensures n == |Fifo()|
    {
      StartsFrom(codec, spans, next);
      n := 0;
      var pos := consumed;
      while pos < |file|
        invariant consumed <= pos <= |file|
        invariant n + |LineStarts(file, pos)| == |LineStarts(file, consumed)|
      {
        var e := LineEnd(file, pos);
        if !Blank(file[pos..e]) {
          n := n + 1;
        }
        pos := e;
      }
    }

    /**
     Feed spans to `accept`, which is told how many it accepted before, until
     it declines one or the file ends; then compact and save the cursor.
     */
    method Drain(accept: (nat, T) -> bool) returns (accepted: nat)
      requires Valid()
      modifies this
      ensures Valid()
      ensures accepted == AcceptedFrom(old(Fifo()), accept, 0)
      ensures Fifo() == old(Fifo())[accepted..]
      ensures OnDisk() == Drained(old(OnDisk()), SpillDisk.Feed(codec, old(file), old(consumed), accept, 0))
      ensures Appended() == old(Appended()) && Head() == old(Head()) + accepted
      ensures delivered == old(delivered) + Range(old(Head()), Head())
      ensures saved == next
      ensures if old(next) + accepted == |old(spans)| then spans == [] && next == 0
              else spans == old(spans) && next == old(next) + accepted
    {
      DrainContent(codec, spans, next, cursor, accept);
      accepted := Feed(accept);
      Settle();
    }

    /** Empty a fully consumed file, then save the cursor. */
    method Settle()
      requires Valid()
      modifies this
      ensures Valid() && Fifo() == old(Fifo())
      ensures Appended() == old(Appended()) && Head() == old(Head()) && delivered == old(delivered)
      ensures saved == next
      ensures OnDisk() == if old(consumed) >= |old(file)| then Disk([], Some(0), 0)
                          else Disk(old(file), Some(old(consumed)), old(consumed))
      ensures if old(next) == |old(spans)| then spans == [] && next == 0 else spans == old(spans) && next == old(next)
    {
      AtEndIff(codec, spans, next);
      if consumed >= |file| {
        archive, spans, next := archive + spans, [], 0;
        file := [];
        consumed := 0;
      }
      saved := next;
      cursor := Some(consumed);
    }

    /** Read and feed; nothing on disk changes. */
    method Feed(accept: (nat, T) -> bool) returns (accepted: nat)
      requires Valid()
      modifies this`consumed, this`next, this`delivered
      ensures Valid()
      ensures accepted == AcceptedFrom(old(Fifo()), accept, 0)
      ensures Head() == old(Head()) + accepted
      ensures delivered == old(delivered) + Range(old(Head()), Head())
    {
      ghost var head := Head();
      consumed, accepted := FeedLines(codec, file, consumed, accept, spans, next);
      HandedOutMore(delivered, head, accepted);
      delivered := delivered + Range(head, head + accepted);
      next := next + accepted;
    }

    /**
     The process stops between two operations and the buffer is opened again.
     Only the cursor on disk is known, so spans consumed since it was saved
     come back; none is lost.
     */
    method Reopen()
      requires Valid()
      modifies this
      ensures Valid()
      ensures Appended() == old(Appended()) && delivered == old(delivered)
      ensures Head() == old(|archive| + saved) <= old(Head()) && saved == next
      ensures spans == old(spans) && next == old(saved)
      ensures exists again :: Fifo() == again + old(Fifo())
    {
      ghost var was := Fifo();
      consumed := Saved(OnDisk());
      next := saved;
      assert Fifo() == spans[saved..old(next)] + was;
    }

    /** The process stops during a drain, before anything was written, and the buffer is opened again. */
    method DrainInterrupted(accept: (nat, T) -> bool) returns (accepted: nat)
      requires Valid()
      modifies this
      ensures Valid()
      ensures Appended() == old(Appended()) && Head() == old(|archive| + saved) && saved == next
      ensures spans == old(spans) && next == old(saved)
      ensures accepted == AcceptedFrom(old(Fifo()), accept, 0)
      ensures delivered == old(delivered) + Range(old(Head()), old(Head()) + accepted)
    {
      accepted := Feed(accept);
      Reopen();
    }

    /** The file was emptied while an older cursor is on disk; everything appended so far was delivered. */
    ghost predicate Emptied()
      reads this
    {
      && Faithful(codec)
      && file == [] && spans == [] && next == 0 && saved == 0 && consumed == Saved(OnDisk())
      && HandedOut(delivered, Head())
    }

    /**
     The process stops during a drain, after the file was emptied and before
     the cursor was written, and the buffer is opened again. If the drain did
     not get to the end of the file, there was nothing to empty.
     */
    method DrainCompacted(accept: (nat, T) -> bool) returns (accepted: nat)
      requires Valid()
      modifies this
      ensures Appended() == old(Appended())
      ensures accepted == AcceptedFrom(old(Fifo()), accept, 0)
      ensures delivered == old(delivered) + Range(old(Head()), old(Head()) + accepted)
      ensures old(next) + accepted < |old(spans)| ==>
        Valid() && saved == next && spans == old(spans) && next == old(saved)
      ensures old(next) + accepted == |old(spans)| ==>
        Emptied() && (Saved(OnDisk()) == 0 <==> old(saved) == 0) && (old(saved) == 0 ==> Valid() && saved == next)
    {
      accepted := Feed(accept);
      AtEndIff(codec, spans, next);
      if consumed >= |file| {
        EmptyAndReopen();
      } else {
        Reopen();
      }
    }

    /** The file is emptied, the process stops, and the buffer is opened with the cursor on disk. */
    method EmptyAndReopen()
      requires Valid() && next == |spans|
      modifies this
      ensures Appended() == old(Appended()) && delivered == old(delivered)
      ensures Emptied() && (Saved(OnDisk()) == 0 <==> old(saved) == 0)
      ensures old(saved) == 0 ==> Valid() && saved == next
    {
      CursorZero(codec, spans, saved);
      archive, spans, next, saved := archive + spans, [], 0, 0;
      file := [];
      consumed := Saved(OnDisk());
    }

    /** A drain that finds the file emptied reads nothing and sets the cursor right. */
    method DrainEmptied(accept: (nat, T) -> bool) returns (accepted: nat)
      requires Emptied()
      modifies this
      ensures Valid() && saved == next && spans == [] && next == 0
      ensures accepted == 0 && Appended() == old(Appended()) && delivered == old(delivered)
    {
      accepted := 0;
      if consumed >= |file| {
        file := [];
        consumed := 0;
      }
      cursor := Some(consumed);
    }
  }

  /** A cursor at the start of a record is zero only at the first one. */
  lemma CursorZero<T(!new)>(c: Codec<T>, ts: seq<T>, i: nat)
    requires Faithful(c) && i <= |ts|
    ensures Start(c, ts, i) == 0 <==> i == 0
  {
    if i > 0 {
      assert ts[..i][..i - 1] == ts[..i - 1];
      assert LineOk(c, ts[i - 1]);
    }
  }

  lemma HandedOutMore(delivered: seq<nat>, head: nat, n: nat)
    requires HandedOut(delivered, head)
    ensures HandedOut(delivered + Range(head, head + n), head + n)
  {
    var more := Range(head, head + n);
    forall i | 0 <= i < head + n ensures i in delivered + more {
      if i >= head {
        assert more[i - head] == i;
      }
    }
  }

  /** The reading loop of a drain on a file of spans: from the start of span `next` to where it stops. */
  method FeedLines<T(!new)>(codec: Codec<T>, file: Bytes, start: nat, accept: (nat, T) -> bool,
                            ghost spans: seq<T>, ghost next: nat)
    returns (pos: nat, accepted: nat)
    requires Faithful(codec) && file == Content(codec, spans)
    requires next <= |spans| && start == Start(codec, spans, next)
    ensures accepted == AcceptedFrom(spans[next..], accept, 0)
    ensures pos == Start(codec, spans, next + accepted)
  {
    var fed := FeedLoop(codec, file, start, accept);
    FeedContent(codec, spans, next, accept);
    pos, accepted := fed.pos, |fed.taken|;
  }

  /** Every span appended was delivered or is still in the queue. */
  lemma {:induction false} AtLeastOnce<T(!new)>(s: SpillBuffer<T>, i: nat)
    requires s.Valid() && i < |s.Appended()|
    ensures i in s.delivered || (i >= s.Head() && s.Fifo()[i - s.Head()] == s.Appended()[i])
  {
    assert i < s.Head() ==> i in s.delivered;
  }

  lemma AppendKeeps<T(!new)>(c: Codec<T>, ts: seq<T>, t: T, i: nat)
    requires i <= |ts|
    ensures Content(c, ts + [t]) == Content(c, ts) + Line(c, t)
    ensures Start(c, ts + [t], i) == Start(c, ts, i)
  {
    assert (ts + [t])[..|ts|] == ts;
    assert (ts + [t])[..i] == ts[..i];
  }

  // ---- the window between compaction and the cursor write ------------------

  lemma {:induction false} StartsBound(data: Bytes, from: nat)
    requires from <= |data|
    ensures forall k :: 0 <= k < |LineStarts(data, from)| ==> from <= LineStarts(data, from)[k]
    decreases |data| - from
  {
    if from < |data| {
      StartsBound(data, LineEnd(data, from));
    }
  }

  /** What a reader sees from a cursor that may lie beyond the end of the file. */
  function Visible(data: Bytes, cursor: nat): seq<nat> {
    if cursor <= |data| then LineStarts(data, cursor) else []
  }

  /**
   A crash after compaction and before the cursor write leaves an old cursor
   over an empty file. If `later` spans are appended before the next drain,
   the reader sees all of them exactly when there are none or the old cursor
   was zero; otherwise at least the first of them is out of its sight.
   */
  lemma StaleCursor<T(!new)>(c: Codec<T>, later: seq<T>, cursor: nat)
    requires Faithful(c)
    ensures Visible(Content(c, later), cursor) == Visible(Content(c, later), 0)
       <==> later == [] || cursor == 0
  {
    var data := Content(c, later);
    if later != [] && cursor != 0 {
      StartsFrom(c, later, 0);
      assert LineStarts(data, 0)[0] == Start(c, later, 0) == 0;
      if cursor <= |data| {
        StartsBound(data, cursor);
      }
    }
  }
}
