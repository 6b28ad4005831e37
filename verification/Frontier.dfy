/**
 The incremental tree keeps one perfect subtree root per set bit of its size.
 It is shown to give the same root as the recursive tree hash over all leaves.
 */
module Frontier {
  import opened Prelude
  import opened Powers
  import opened Merkle
  import opened MerkleProofs

  type Slots = seq<Option<Digest>>

  // ---- specification -------------------------------------------------------

  /** A slot of level `i` is empty, or holds the hash of a run of `Pow2(i)` leaves. */
  ghost predicate SlotOf(hs: Hasher, slot: Option<Digest>, i: nat, run: seq<Digest>) {
    match slot
    case None => run == []
    case Some(d) => |run| == Pow2(i) && d == TreeHash(hs, run)
  }

  /** Slot `i` of `f`, at level `b + i`, matches run `i`. */
  ghost predicate Matches(hs: Hasher, f: Slots, b: nat, runs: seq<seq<Digest>>) {
    |f| == |runs| && forall i :: 0 <= i < |f| ==> SlotOf(hs, f[i], b + i, runs[i])
  }

  /** The leaves behind the runs: the highest run comes first. */
  ghost function Join(runs: seq<seq<Digest>>): seq<Digest>
    decreases |runs|
  {
    if runs == [] then [] else Join(runs[1..]) + runs[0]
  }

  /** The filled slots, largest subtree first. */
  function Present(f: Slots): seq<Digest>
    decreases |f|
  {
    if f == [] then []
    else Present(f[1..]) + (match f[0] case None => [] case Some(d) => [d])
  }

  /** Hash `acc` under the subtrees of `p`, the last one first. */
  function Fold(hs: Hasher, p: seq<Digest>, acc: Digest): Digest
    decreases |p|
  {
    if p == [] then acc
    else Fold(hs, p[..|p| - 1], hs.node(p[|p| - 1], acc))
  }

  function Filled(f: Slots): nat
    decreases |f|
  {
    if f == [] then 0 else (if f[0].Some? then 1 else 0) + Filled(f[1..])
  }

  // ---- append --------------------------------------------------------------

  /** A perfect tree and a right neighbour that is no larger form one tree. */
  lemma Merge(hs: Hasher, b: nat, left: seq<Digest>, right: seq<Digest>)
    requires |left| == Pow2(b) && 0 < |right| <= Pow2(b)
    ensures TreeHash(hs, left + right) == hs.node(TreeHash(hs, left), TreeHash(hs, right))
  {
    TreeHashSplit(hs, left + right, b);
    assert (left + right)[..Pow2(b)] == left && (left + right)[Pow2(b)..] == right;
  }

  /** Above empty runs, run `i` is the end of the list. */
  lemma {:induction false} JoinLowest(runs: seq<seq<Digest>>, i: nat)
    requires i < |runs| && forall k :: 0 <= k < i ==> runs[k] == []
    ensures Join(runs) == Join(runs[i := []]) + runs[i]
    decreases i
  {
    var cleared := runs[i := []];
    if i == 0 {
      assert cleared[1..] == runs[1..];
    } else {
      assert cleared[1..] == runs[1..][i - 1 := []];
      JoinLowest(runs[1..], i - 1);
    }
  }

  lemma {:induction false} JoinAppend(runs: seq<seq<Digest>>, run: seq<Digest>)
    requires forall k :: 0 <= k < |runs| ==> runs[k] == []
    ensures Join(runs + [run]) == run && Join(runs) == []
    decreases |runs|
  {
    if runs == [] {
      assert (runs + [run])[1..] == [];
    } else {
      assert (runs + [run])[1..] == runs[1..] + [run];
      JoinAppend(runs[1..], run);
    }
  }

  // ---- root ----------------------------------------------------------------

  lemma {:induction false} FoldLast(hs: Hasher, p: seq<Digest>, d: Digest, acc: Digest)
    ensures Fold(hs, p + [d], acc) == Fold(hs, p, hs.node(d, acc))
  {
    assert (p + [d])[..|p|] == p;
  }

  lemma {:induction false} FoldIsTreeHash(
    hs: Hasher, f: Slots, b: nat, runs: seq<seq<Digest>>, tail: seq<Digest>, acc: Digest, all: seq<Digest>)
    requires Matches(hs, f, b, runs) && 0 < |tail| <= Pow2(b)
    requires acc == TreeHash(hs, tail) && all == Join(runs) + tail
    ensures Fold(hs, Present(f), acc) == TreeHash(hs, all)
    decreases |f|, 1
  {
    if f == [] {
      assert all == tail;
      return;
    }
    MatchesRest(hs, f, b, runs);
    assert SlotOf(hs, f[0], b, runs[0]);
    if f[0].None? {
      assert Present(f) == Present(f[1..]) && all == Join(runs[1..]) + tail;
      FoldIsTreeHash(hs, f[1..], b + 1, runs[1..], tail, acc, all);
    } else {
      FoldFilled(hs, f, b, runs, tail, acc, all);
    }
  }

  lemma {:induction false} FoldFilled(
    hs: Hasher, f: Slots, b: nat, runs: seq<seq<Digest>>, tail: seq<Digest>, acc: Digest, all: seq<Digest>)
    requires f != [] && f[0].Some? && |runs| == |f| && SlotOf(hs, f[0], b, runs[0])
    requires Matches(hs, f[1..], b + 1, runs[1..]) && 0 < |tail| <= Pow2(b)
    requires acc == TreeHash(hs, tail) && all == Join(runs) + tail
    ensures Fold(hs, Present(f), acc) == TreeHash(hs, all)
    decreases |f|, 0
  {
    MergeFilled(hs, b, f[0], runs[0], tail, acc);
    JoinTail(runs, tail);
    FoldIsTreeHash(hs, f[1..], b + 1, runs[1..], runs[0] + tail, hs.node(f[0].value, acc), all);
    FoldLast(hs, Present(f[1..]), f[0].value, acc);
  }

  lemma JoinTail(runs: seq<seq<Digest>>, tail: seq<Digest>)
    requires runs != []
    ensures Join(runs) + tail == Join(runs[1..]) + (runs[0] + tail)
  {
  }

  lemma {:induction false} MergeFilled(hs: Hasher, b: nat, slot: Option<Digest>, run: seq<Digest>, tail: seq<Digest>,
                                       acc: Digest)
    requires slot.Some? && SlotOf(hs, slot, b, run) && 0 < |tail| <= Pow2(b) && acc == TreeHash(hs, tail)
    ensures hs.node(slot.value, acc) == TreeHash(hs, run + tail) && |run + tail| <= Pow2(b + 1)
  {
    Merge(hs, b, run, tail);
  }

  lemma {:induction false} MatchesRest(hs: Hasher, f: Slots, b: nat, runs: seq<seq<Digest>>)
    requires Matches(hs, f, b, runs) && f != []
    ensures Matches(hs, f[1..], b + 1, runs[1..])
  {
    forall i | 0 <= i < |f| - 1 ensures SlotOf(hs, f[1..][i], b + 1 + i, runs[1..][i]) {
      assert SlotOf(hs, f[i + 1], b + (i + 1), runs[i + 1]);
    }
  }

  lemma {:induction false} MatchesDrop(hs: Hasher, f: Slots, b: nat, runs: seq<seq<Digest>>, i: nat)
    requires Matches(hs, f, b, runs) && i <= |f|
    ensures Matches(hs, f[i..], b + i, runs[i..])
    decreases i
  {
    if i > 0 {
      MatchesDrop(hs, f, b, runs, i - 1);
      MatchesRest(hs, f[i - 1..], b + i - 1, runs[i - 1..]);
      assert f[i - 1..][1..] == f[i..] && runs[i - 1..][1..] == runs[i..];
    }
  }

  /** The fold of the filled slots, started from the smallest. */
  function FoldAll(hs: Hasher, p: seq<Digest>): Digest {
    if p == [] then hs.empty else Fold(hs, p[..|p| - 1], p[|p| - 1])
  }

  lemma {:induction false} RootIsTreeHash(hs: Hasher, f: Slots, b: nat, runs: seq<seq<Digest>>)
    requires Matches(hs, f, b, runs)
    ensures FoldAll(hs, Present(f)) == TreeHash(hs, Join(runs))
    decreases |f|
  {
    if f != [] {
      MatchesRest(hs, f, b, runs);
      assert SlotOf(hs, f[0], b, runs[0]);
      if f[0].None? {
        RootIsTreeHash(hs, f[1..], b + 1, runs[1..]);
        assert Present(f) == Present(f[1..]) && Join(runs) == Join(runs[1..]);
      } else {
        FoldIsTreeHash(hs, f[1..], b + 1, runs[1..], runs[0], f[0].value, Join(runs));
        assert Present(f)[..|Present(f)| - 1] == Present(f[1..]);
      }
    }
  }

  // ---- bits of the size ----------------------------------------------------

  /** The number whose binary digits are the filled slots. */
  function Units(f: Slots): nat
    decreases |f|
  {
    if f == [] then 0 else (if f[0].Some? then 1 else 0) + 2 * Units(f[1..])
  }

  predicate Bit(n: nat, i: nat) {
    if i == 0 then n % 2 == 1 else Bit(n / 2, i - 1)
  }

  function PopCount(n: nat): nat {
    if n == 0 then 0 else n % 2 + PopCount(n / 2)
  }

  /** `n` with its lowest `i + 1` bits cleared. */
  function Aligned(n: nat, i: nat): nat {
    2 * (if i == 0 then n / 2 else Aligned(n / 2, i - 1))
  }

  lemma {:induction false} JoinSize(hs: Hasher, f: Slots, b: nat, runs: seq<seq<Digest>>)
    requires Matches(hs, f, b, runs)
    ensures |Join(runs)| == Units(f) * Pow2(b)
    decreases |f|
  {
    if f != [] {
      MatchesRest(hs, f, b, runs);
      JoinSize(hs, f[1..], b + 1, runs[1..]);
      assert SlotOf(hs, f[0], b, runs[0]);
      Doubling(Units(f[1..]), Pow2(b), if f[0].Some? then 1 else 0);
    }
  }

  lemma Doubling(u: nat, p: nat, bit: nat)
    ensures u * (2 * p) + bit * p == (bit + 2 * u) * p
    ensures u * (2 * p) == 2 * (u * p)
  {
  }

  lemma SizeIsUnits(hs: Hasher, f: Slots, runs: seq<seq<Digest>>)
    requires Matches(hs, f, 0, runs)
    ensures |Join(runs)| == Units(f)
  {
    JoinSize(hs, f, 0, runs);
    assert Pow2(0) == 1;
  }

  lemma {:induction false} FilledIsPopCount(f: Slots)
    ensures Filled(f) == PopCount(Units(f))
    decreases |f|
  {
    if f != [] {
      FilledIsPopCount(f[1..]);
      assert Units(f) / 2 == Units(f[1..]);
    }
  }

  /** The lowest digit, and the digits above it. */
  lemma UnitsHalf(f: Slots)
    requires f != []
    ensures Units(f) / 2 == Units(f[1..]) && (Units(f) % 2 == 1 <==> f[0].Some?)
  {
  }

  lemma {:induction false} SlotFilled(f: Slots, i: nat)
    ensures Bit(Units(f), i) <==> i < |f| && f[i].Some?
    decreases i
  {
    if f != [] {
      UnitsHalf(f);
      if i > 0 {
        SlotFilled(f[1..], i - 1);
      }
    } else if i > 0 {
      SlotFilled(f, i - 1);
    }
  }

  lemma {:induction false} AlignedUnits(f: Slots, i: nat)
    requires i < |f|
    ensures Aligned(Units(f), i) == Units(f[i + 1..]) * Pow2(i + 1)
    decreases i
  {
    assert Units(f) / 2 == Units(f[1..]);
    if i > 0 {
      AlignedUnits(f[1..], i - 1);
      assert f[1..][i..] == f[i + 1..];
      Doubling(Units(f[i + 1..]), Pow2(i), 0);
    } else {
      assert Pow2(1) == 2;
    }
  }

  /** Run `i` sits between the higher runs and the lower ones. */
  lemma {:induction false} JoinAround(runs: seq<seq<Digest>>, i: nat)
    requires i < |runs|
    ensures Join(runs) == Join(runs[i + 1..]) + runs[i] + Join(runs[..i])
    decreases i
  {
    if i > 0 {
      JoinAround(runs[1..], i - 1);
      assert runs[1..][i..] == runs[i + 1..] && runs[1..][..i - 1] == runs[..i][1..];
    }
  }

  /** Slot `i` hashes the aligned run of leaves that its bit stands for. */
  lemma SlotSlice(hs: Hasher, f: Slots, runs: seq<seq<Digest>>, i: nat)
    requires Matches(hs, f, 0, runs) && i < |f| && f[i].Some?
    ensures var start, all := Aligned(Units(f), i), Join(runs);
      && start + Pow2(i) <= |all|
      && f[i].value == TreeHash(hs, all[start..start + Pow2(i)])
  {
    JoinAround(runs, i);
    AlignedUnits(f, i);
    MatchesDrop(hs, f, 0, runs, i + 1);
    JoinSize(hs, f[i + 1..], i + 1, runs[i + 1..]);
    assert SlotOf(hs, f[i], 0 + i, runs[i]);
    var start := |Join(runs[i + 1..])|;
    assert Join(runs)[start..start + Pow2(i)] == runs[i];
  }

  // ---- the tree ------------------------------------------------------------

  class IncrementalMerkleTree {
    const hs: Hasher
    var frontier: Slots
    var size: nat
    ghost var runs: seq<seq<Digest>>  // the leaves behind each slot
    ghost var hashed: nat             // node hashes performed by appends so far

    ghost function Leaves(): seq<Digest>
      reads this
    {
      Join(runs)
    }

    ghost predicate Valid()
      reads this
    {
      && Matches(hs, frontier, 0, runs)
      && size == |Leaves()|
      && hashed + Filled(frontier) == size
    }

    constructor (hs: Hasher)
      ensures Valid() && Leaves() == [] && this.hs == hs
    {
      this.hs := hs;
      frontier := [];
      size := 0;
      runs := [];
      hashed := 0;
    }

    constructor FromLeaves(hs: Hasher, hashes: seq<Digest>)
      ensures Valid() && Leaves() == hashes && this.hs == hs
    {
      this.hs := hs;
      frontier := [];
      size := 0;
      runs := [];
      hashed := 0;
      new;
      for i := 0 to |hashes|
        invariant Valid() && Leaves() == hashes[..i]
      {
        Append(hashes[i]);
        assert hashes[..i] + [hashes[i]] == hashes[..i + 1];
      }
    }

    method Append(leaf: Digest)
      requires Valid()
      modifies this
      ensures Valid() && Leaves() == old(Leaves()) + [leaf]
    {
      var carry, level := leaf, 0;
      ghost var tail := [leaf];
      while level < |frontier| && frontier[level].Some?
        invariant Carrying(hs, frontier, runs, level, tail, carry)
        invariant Join(runs) + tail == old(Leaves()) + [leaf]
        invariant hashed + Filled(frontier) == size == old(size)
      {
        FilledUpdate(frontier, level, None);
        Absorb(hs, frontier, runs, level, tail, carry);
        carry := hs.node(frontier[level].value, carry);
        hashed := hashed + 1;
        tail := runs[level] + tail;
        frontier, runs := frontier[level := None], runs[level := []];
        level := level + 1;
      }
      Settle(hs, frontier, runs, level, tail, carry);
      if level == |frontier| {
        FilledAppend(frontier, carry);
        frontier, runs := frontier + [Some(carry)], runs + [tail];
      } else {
        FilledUpdate(frontier, level, Some(carry));
        frontier, runs := frontier[level := Some(carry)], runs[level := tail];
      }
      size := size + 1;
    }

    method Root() returns (root: Digest)
      requires Valid()
      ensures root == TreeHash(hs, Leaves())
    {
      var present: seq<Digest> := [];
      for level := 0 to |frontier|
        invariant Present(frontier) == Present(frontier[level..]) + present
      {
        assert frontier[level..][0] == frontier[level] && frontier[level..][1..] == frontier[level + 1..];
        if frontier[level].Some? {
          present := [frontier[level].value] + present;  // largest subtree first
        }
      }
      assert frontier[|frontier|..] == [];
      assert Present(frontier) == present;
      RootIsTreeHash(hs, frontier, 0, runs);
      root := FoldPresent(hs, present);
    }

    /** What the frontier is, slot by slot, in terms of the bits of the size. */
    lemma FrontierSlots(i: nat)
      requires Valid()
      ensures Bit(size, i) <==> i < |frontier| && frontier[i].Some?
      ensures Bit(size, i) ==>
        var start := Aligned(size, i);
        && start + Pow2(i) <= size
        && frontier[i].value == TreeHash(hs, Leaves()[start..start + Pow2(i)])
      ensures hashed == size - PopCount(size)
    {
      SizeIsUnits(hs, frontier, runs);
      FilledIsPopCount(frontier);
      SlotFilled(frontier, i);
      if Bit(size, i) {
        SlotSlice(hs, frontier, runs, i);
      }
    }
  }

  /** The folding loop of the root computation. */
  method FoldPresent(hs: Hasher, present: seq<Digest>) returns (acc: Digest)
    ensures acc == FoldAll(hs, present)
  {
    if present == [] {
      return hs.empty;
    }
    acc := present[|present| - 1];
    for i := |present| - 1 downto 0
      invariant Fold(hs, present[..i], acc) == FoldAll(hs, present)
    {
      assert present[..i + 1][..i] == present[..i];
      acc := hs.node(present[i], acc);
    }
  }

  /** The carry stands for `tail`, and the slots below its level are empty. */
  ghost predicate Carrying(
    hs: Hasher, f: Slots, runs: seq<seq<Digest>>, level: nat, tail: seq<Digest>, carry: Digest)
  {
    && Matches(hs, f, 0, runs) && level <= |f|
    && (forall k :: 0 <= k < level ==> runs[k] == [])
    && |tail| == Pow2(level) && carry == TreeHash(hs, tail)
  }

  /** Emptying the lowest filled slot takes its run off the end of the list. */
  lemma TakeRun(hs: Hasher, f: Slots, runs: seq<seq<Digest>>, level: nat, tail: seq<Digest>)
    requires Matches(hs, f, 0, runs) && level < |f|
    requires forall k :: 0 <= k < level ==> runs[k] == []
    ensures Matches(hs, f[level := None], 0, runs[level := []])
    ensures Join(runs[level := []]) + (runs[level] + tail) == Join(runs) + tail
  {
    JoinLowest(runs, level);
  }

  /** One carry: the run of a filled slot moves in front of the tail. */
  lemma Absorb(hs: Hasher, f: Slots, runs: seq<seq<Digest>>, level: nat, tail: seq<Digest>, carry: Digest)
    requires Carrying(hs, f, runs, level, tail, carry) && level < |f| && f[level].Some?
    ensures Carrying(hs, f[level := None], runs[level := []], level + 1, runs[level] + tail,
                     hs.node(f[level].value, carry))
    ensures Join(runs[level := []]) + (runs[level] + tail) == Join(runs) + tail
  {
    assert SlotOf(hs, f[level], 0 + level, runs[level]);
    TakeRun(hs, f, runs, level, tail);
    Merge(hs, level, runs[level], tail);
  }

  /** The last carry settles in the first empty slot. */
  lemma Settle(hs: Hasher, f: Slots, runs: seq<seq<Digest>>, level: nat, tail: seq<Digest>, carry: Digest)
    requires Carrying(hs, f, runs, level, tail, carry)
    requires level < |f| ==> f[level].None?
    ensures level == |f| ==>
      Matches(hs, f + [Some(carry)], 0, runs + [tail]) && Join(runs + [tail]) == Join(runs) + tail
    ensures level < |f| ==>
      && Matches(hs, f[level := Some(carry)], 0, runs[level := tail])
      && Join(runs[level := tail]) == Join(runs) + tail
  {
    if level == |f| {
      JoinAppend(runs, tail);
    } else {
      assert SlotOf(hs, f[level], 0 + level, runs[level]);
      JoinLowest(runs[level := tail], level);
      assert runs[level := tail][level := []] == runs;
    }
  }

  lemma {:induction false} FilledUpdate(f: Slots, i: nat, s: Option<Digest>)
    requires i < |f|
    ensures Filled(f[i := s]) == Filled(f) - (if f[i].Some? then 1 else 0) + (if s.Some? then 1 else 0)
    decreases |f|
  {
    if i == 0 {
      assert f[i := s][1..] == f[1..];
    } else {
      FilledUpdate(f[1..], i - 1, s);
      assert f[i := s][1..] == f[1..][i - 1 := s];
    }
  }

  lemma {:induction false} FilledAppend(f: Slots, d: Digest)
    ensures Filled(f + [Some(d)]) == Filled(f) + 1
    decreases |f|
  {
    if f == [] {
      assert (f + [Some(d)])[1..] == [];
    } else {
      FilledAppend(f[1..], d);
      assert (f + [Some(d)])[1..] == f[1..] + [Some(d)];
    }
  }
}
