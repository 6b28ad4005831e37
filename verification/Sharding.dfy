/**
 The sharded ledger: independent logs whose roots are the leaves of a signed
 super-tree. A shard is represented by its list of leaf hashes, together with
 the contents that they are hashes of.
 */
module Sharding {
  import opened Prelude
  import opened Merkle
  import opened MerkleWalk
  import opened MerkleProofs
  import opened HashBytes
  import opened LogContents
  import opened Json
  import opened Canonical
  import opened Signing
  import opened Ledger

  // ---- the super-tree ------------------------------------------------------

  function SuperRoot(hs: Hasher, roots: seq<Digest>): Digest {
    TreeHash(hs, LeafHashes(hs, roots))
  }

  function SuperProof(hs: Hasher, roots: seq<Digest>, shard: int): Option<seq<Digest>> {
    InclusionProof(hs, LeafHashes(hs, roots), shard)
  }

  datatype ShardedProof = ShardedProof(
    shardIndex: int,
    numShards: nat,
    leafIndex: int,
    shardSize: nat,
    shardRoot: Digest,
    shardProof: seq<Digest>,
    superProof: seq<Digest>)

  /** The event is in its shard, and the shard is in the super-tree. */
  predicate AcceptsSharded(hs: Hasher, leaf: Digest, p: ShardedProof, superRoot: Digest) {
    && AcceptsInclusion(hs, p.leafIndex, p.shardSize, leaf, p.shardProof, p.shardRoot)
    && AcceptsInclusion(hs, p.shardIndex, p.numShards, hs.leaf(p.shardRoot), p.superProof, superRoot)
  }

  method VerifyShardedInclusion(hs: Hasher, leaf: Digest, p: ShardedProof, superRoot: Digest) returns (ok: bool)
    ensures ok == AcceptsSharded(hs, leaf, p, superRoot)
  {
    ok := VerifyInclusion(hs, p.leafIndex, p.shardSize, leaf, p.shardProof, p.shardRoot);
    if ok {
      ok := VerifyInclusion(hs, p.shardIndex, p.numShards, hs.leaf(p.shardRoot), p.superProof, superRoot);
    }
  }

  // ---- snapshots -----------------------------------------------------------

  /** What a super-checkpoint records of one shard. */
  datatype ShardHead = ShardHead(size: nat, root: Digest)

  datatype SuperCheckpoint = SuperCheckpoint(head: Checkpoint, shards: seq<ShardHead>)

  function RootsOf(heads: seq<ShardHead>): (rs: seq<Digest>)
    ensures |rs| == |heads|
    ensures forall i :: 0 <= i < |rs| ==> rs[i] == heads[i].root
  {
    seq(|heads|, i requires 0 <= i < |heads| => heads[i].root)
  }

  /** The recorded root is that of the first leaves, as many as were recorded. */
  predicate Recorded(hs: Hasher, head: ShardHead, leaves: seq<Digest>) {
    head.size <= |leaves| && head.root == TreeHash(hs, leaves[..head.size])
  }

  /** The root was read off the shard when its contents were `seen`, and its size at some time. */
  ghost predicate ReadAs(hs: Hasher, head: ShardHead, seen: seq<Bytes>, contents: seq<Bytes>) {
    head.root == Root(hs, seen) && seen <= contents && head.size <= |contents|
  }

  /** If the two reads saw the same contents, the head is recorded faithfully, for good. */
  lemma {:induction false} SameReadsRecord(hs: Hasher, head: ShardHead, seen: seq<Bytes>, contents: seq<Bytes>)
    requires ReadAs(hs, head, seen, contents) && |seen| == head.size
    ensures Recorded(hs, head, LeafHashes(hs, contents))
  {
    LeafHashesSplit(hs, contents, head.size);
    assert contents[..head.size] == seen;
  }

  /** And only then, unless two byte strings with one hash are at hand. */
  lemma {:induction false} RecordedIffSameReads(hs: Hasher, h: Bytes -> Digest, width: nat, head: ShardHead,
                                                seen: seq<Bytes>, contents: seq<Bytes>)
    returns (x: Bytes, y: Bytes)
    requires BuiltFrom(hs, h, width) && ReadAs(hs, head, seen, contents)
    ensures IsByteCollision(h, x, y) || (Recorded(hs, head, LeafHashes(hs, contents)) <==> |seen| == head.size)
  {
    x, y := [], [];
    if |seen| == head.size {
      SameReadsRecord(hs, head, seen, contents);
    } else if Recorded(hs, head, LeafHashes(hs, contents)) {
      LeafHashesSplit(hs, contents, head.size);
      x, y := ContentCollision(hs, h, width, seen, contents[..head.size]);
    }
  }

  /** Shards only grow. */
  ghost predicate Grown(a: seq<seq<Bytes>>, b: seq<seq<Bytes>>) {
    |a| == |b| && forall i :: 0 <= i < |a| ==> a[i] <= b[i]
  }

  function AllHashes(hs: Hasher, contents: seq<seq<Bytes>>): (shards: seq<seq<Digest>>)
    ensures |shards| == |contents|
    ensures forall i :: 0 <= i < |shards| ==> shards[i] == LeafHashes(hs, contents[i])
  {
    seq(|contents|, i requires 0 <= i < |contents| => LeafHashes(hs, contents[i]))
  }

  /** A commit request: the content, and the shard if the caller pins one. */
  datatype Request = Request(body: Value, shard: Option<int>)

  /** List indexing as in Python: a negative index counts from the end; `None` where IndexError is raised. */
  function Resolve(s: int, n: nat): (r: Option<nat>)
    ensures r.Some? ==> r.value < n
  {
    if 0 <= s < n then Some(s) else if 0 - n <= s < 0 then Some(s + n) else None
  }

  /** Counting from the end is counting from the start, and nothing else is an index. */
  lemma {:induction false} ResolveMeans(s: nat, n: nat)
    requires s < n
    ensures Resolve(s, n) == Resolve(s - n, n) == Some(s)
    ensures forall t :: t < 0 - n || n <= t ==> Resolve(t, n).None?
  {
  }

  /** Everything needed to prove one event under given roots; `None` where the source raises an error. */
  function ProofUnder(hs: Hasher, shards: seq<seq<Digest>>, roots: seq<Digest>, head: ShardHead, shard: nat, index: int)
    : (p: Option<ShardedProof>)
    requires shard < |shards| == |roots| && head.root == roots[shard]
    ensures p.Some? <==> 0 <= index < head.size && index < |shards[shard]|
    ensures p.Some? && head.size <= |shards[shard]| ==>
      (AcceptsSharded(hs, shards[shard][index], p.value, SuperRoot(hs, roots)) <==> Recorded(hs, head, shards[shard]))
  {
    var shardProof := InclusionProof(hs, FirstLeaves(shards[shard], head.size), index);
    var superProof := SuperProof(hs, roots, shard);
    if shardProof.None? then None
    else
      ProofAcceptedIff(hs, shards[shard], roots, head, shard, index);
      Some(ShardedProof(shard, |shards|, index, head.size, head.root, shardProof.value, superProof.value))
  }

  lemma {:induction false} ProofAcceptedIff(hs: Hasher, leaves: seq<Digest>, roots: seq<Digest>, head: ShardHead,
                                            shard: nat, index: nat)
    requires shard < |roots| && head.root == roots[shard] && index < |leaves|
    ensures index < head.size <= |leaves| ==>
      && RootFrom(hs, index, head.size, leaves[index], AuditPath(hs, leaves[..head.size], index))
         == Some(TreeHash(hs, leaves[..head.size]))
    ensures RootFrom(hs, shard, |roots|, hs.leaf(head.root), AuditPath(hs, LeafHashes(hs, roots), shard))
         == Some(SuperRoot(hs, roots))
  {
    if index < head.size <= |leaves| {
      InclusionComplete(hs, leaves[..head.size], index);
    }
    InclusionComplete(hs, LeafHashes(hs, roots), shard);
  }

  /** The same under recorded heads. */
  function PinnedShardedProof(hs: Hasher, shards: seq<seq<Digest>>, heads: seq<ShardHead>, shard: int, index: int)
    : (p: Option<ShardedProof>)
    ensures p.Some? <==>
      0 <= shard < |shards| <= |heads| && 0 <= index < heads[shard].size && index < |shards[shard]|
  {
    if !(0 <= shard < |shards| <= |heads|) then None
    else ProofUnder(hs, shards, RootsOf(heads[..|shards|]), heads[shard], shard, index)
  }

  class ShardedLedger {
    const hs: Hasher
    const idOf: Bytes -> string
    const origin: string
    const route: Value -> int
    var shards: seq<seq<Digest>>
    ghost var contents: seq<seq<Bytes>>  // what the leaves are hashes of

    ghost predicate Valid()
      reads this
    {
      shards == AllHashes(hs, contents)
    }

    constructor (hs: Hasher, idOf: Bytes -> string, origin: string, route: Value -> int, shards: seq<seq<Digest>>,
                 ghost contents: seq<seq<Bytes>>)
      requires shards != [] && shards == AllHashes(hs, contents)
      ensures Valid() && this.contents == contents
      ensures this.hs == hs && this.shards == shards && this.route == route && this.idOf == idOf
    {
      this.hs, this.idOf, this.origin, this.route, this.shards := hs, idOf, origin, route, shards;
      this.contents := contents;
    }

    /** The shard index that the caller pinned, or else the routed one. */
    function Chosen(req: Request): int {
      if req.shard.Some? then req.shard.value else route(req.body)
    }

    /** The shard that a request goes to. */
    function Target(req: Request, n: nat): Option<nat> {
      Resolve(Chosen(req), n)
    }

    /** What a request commits; `None` where it cannot be serialized. */
    function ContentOf(req: Request): Option<Bytes> {
      CanonicalBytes(Finalized(idOf, req.body))
    }

    /** A pinned request goes to its shard whatever its content, any other to where its content is routed. */
    lemma {:induction false} RoutedTo(req: Request, n: nat, s: nat)
      requires s < n
      ensures req.shard == Some(s) ==> Target(req, n) == Some(s)
      ensures req.shard.None? && route(req.body) == s ==> Target(req, n) == Some(s)
    {
      ResolveMeans(s, n);
    }

    /** `None`, and no change, where the shard does not exist or the content cannot be serialized. */
    method Commit(req: Request) returns (index: Option<(int, nat)>)
      requires Valid()
      modifies this
      ensures Valid() && Grown(old(contents), contents)
      ensures var s, c := Target(req, |old(shards)|), ContentOf(req);
        if s.Some? && c.Some? then
          && index == Some((Chosen(req), |old(shards)[s.value]|))
          && shards == old(shards)[s.value := old(shards)[s.value] + [hs.leaf(c.value)]]
          && contents == old(contents)[s.value := old(contents)[s.value] + [c.value]]
        else index.None? && shards == old(shards) && contents == old(contents)
    {
      var s := Target(req, |shards|);
      var leaf := LeafOf(hs, Finalized(idOf, req.body));
      if s.None? || leaf.None? {
        return None;
      }
      index := Some((Chosen(req), |shards[s.value]|));
      ghost var more := contents[s.value] + [ContentOf(req).value];
      assert LeafHashes(hs, more) == shards[s.value] + [leaf.value];
      shards := shards[s.value := shards[s.value] + [leaf.value]];
      contents := contents[s.value := more];
      assert shards == AllHashes(hs, contents);
    }

    predicate AppendsTo(req: Request, n: nat, s: nat) {
      Target(req, n) == Some(s) && ContentOf(req).Some?
    }

    /** None of the requests appends a leaf to shard `s`. */
    predicate Quiet(reqs: seq<Request>, n: nat, s: nat) {
      forall k :: 0 <= k < |reqs| ==> !AppendsTo(reqs[k], n, s)
    }

    /** Commits by others: exactly the shards that some request appends to change. */
    method CommitAll(reqs: seq<Request>)
      requires Valid()
      modifies this
      ensures Valid() && Grown(old(contents), contents)
      ensures forall s :: 0 <= s < |contents| ==> (contents[s] == old(contents)[s] <==> Quiet(reqs, |contents|, s))
    {
      for k := 0 to |reqs|
        invariant Valid() && Grown(old(contents), contents)
        invariant forall s :: 0 <= s < |contents| ==>
          (contents[s] == old(contents)[s] <==> Quiet(reqs[..k], |contents|, s))
      {
        assert reqs[..k + 1] == reqs[..k] + [reqs[k]];
        ghost var before := contents;
        var index := Commit(reqs[k]);
        forall s | 0 <= s < |contents|
          ensures contents[s] == old(contents)[s] <==> Quiet(reqs[..k + 1], |contents|, s)
        {
          QuietNext(reqs, k, |contents|, s);
          assert old(contents)[s] <= before[s];
        }
      }
      assert reqs[..|reqs|] == reqs;
    }

    lemma QuietNext(reqs: seq<Request>, k: nat, n: nat, s: nat)
      requires k < |reqs|
      ensures Quiet(reqs[..k + 1], n, s) <==> Quiet(reqs[..k], n, s) && !AppendsTo(reqs[k], n, s)
    {
      var a, b := reqs[..k], reqs[..k + 1];
      assert b[k] == reqs[k] && forall i :: 0 <= i < k ==> a[i] == b[i];
    }

    /** What is known of a head of shard `i` that was read with the requests `between` its two reads. */
    ghost predicate HeadRead(head: ShardHead, seen: seq<Bytes>, between: seq<Request>, i: nat, all: seq<seq<Bytes>>) {
      && i < |all| && ReadAs(hs, head, seen, all[i])
      && (|seen| == head.size <==> Quiet(between, |all|, i))
    }

    /** The same of all heads, with `others(2 * i + 1)` between the reads of shard `i`. */
    ghost predicate SnapshotOf(heads: seq<ShardHead>, seen: seq<seq<Bytes>>, others: nat -> seq<Request>,
                               all: seq<seq<Bytes>>) {
      |heads| == |seen| && forall i :: 0 <= i < |heads| ==> HeadRead(heads[i], seen[i], others(2 * i + 1), i, all)
    }

    lemma SnapshotNext(heads: seq<ShardHead>, seen: seq<seq<Bytes>>, others: nat -> seq<Request>,
                       before: seq<seq<Bytes>>, after: seq<seq<Bytes>>, head: ShardHead, at: seq<Bytes>)
      requires SnapshotOf(heads, seen, others, before) && Grown(before, after)
      requires HeadRead(head, at, others(2 * |heads| + 1), |heads|, after)
      ensures SnapshotOf(heads + [head], seen + [at], others, after)
    {
      forall i | 0 <= i < |heads| ensures HeadRead(heads[i], seen[i], others(2 * i + 1), i, after) {
        HeadReadGrown(heads[i], seen[i], others(2 * i + 1), i, before, after);
      }
      SnapshotMore(heads, seen, others, after, head, at);
    }

    lemma HeadReadGrown(head: ShardHead, seen: seq<Bytes>, between: seq<Request>, i: nat, before: seq<seq<Bytes>>,
                        after: seq<seq<Bytes>>)
      requires HeadRead(head, seen, between, i, before) && Grown(before, after)
      ensures HeadRead(head, seen, between, i, after)
    {
      assert seen <= before[i] <= after[i];
    }

    lemma SnapshotMore(heads: seq<ShardHead>, seen: seq<seq<Bytes>>, others: nat -> seq<Request>,
                       all: seq<seq<Bytes>>, head: ShardHead, at: seq<Bytes>)
      requires SnapshotOf(heads, seen, others, all) && HeadRead(head, at, others(2 * |heads| + 1), |heads|, all)
      ensures SnapshotOf(heads + [head], seen + [at], others, all)
    {
    }

    /**
     Read every shard's size and root, one after the other; `others(k)` are the
     commits that land before the `k`-th read. The two reads of a shard see the
     same contents exactly if no leaf is appended to it between them.
     */
    method Snapshot(others: nat -> seq<Request>) returns (heads: seq<ShardHead>, ghost seen: seq<seq<Bytes>>)
      requires Valid()
      modifies this
      ensures Valid() && Grown(old(contents), contents)
      ensures |heads| == |shards| && SnapshotOf(heads, seen, others, contents)
    {
      heads, seen := [], [];
      for i := 0 to |shards|
        invariant Valid() && Grown(old(contents), contents)
        invariant |heads| == i && SnapshotOf(heads, seen, others, contents)
      {
        ghost var before := contents;
        var head: ShardHead;
        ghost var at: seq<Bytes>;
        head, at := ReadShard(i, others(2 * i), others(2 * i + 1));
        SnapshotNext(heads, seen, others, before, contents, head, at);
        heads, seen := heads + [head], seen + [at];
      }
    }

    method ReadShard(i: nat, before: seq<Request>, between: seq<Request>)
      returns (head: ShardHead, ghost seen: seq<Bytes>)
      requires Valid() && i < |shards|
      modifies this
      ensures Valid() && Grown(old(contents), contents)
      ensures HeadRead(head, seen, between, i, contents)
    {
      CommitAll(before);
      var size := |shards[i]|;
      ghost var sized := contents[i];
      CommitAll(between);
      head, seen := ShardHead(size, TreeHash(hs, shards[i])), contents[i];
      assert sized <= contents[i];
    }

    /** One signed head over the super-root, with what was recorded of each shard. */
    method SignSuper(sc: Scheme, key: Key, now: string, others: nat -> seq<Request>)
      returns (cp: SuperCheckpoint, ghost seen: seq<seq<Bytes>>)
      requires Valid()
      modifies this
      ensures Valid() && Grown(old(contents), contents)
      ensures |cp.shards| == |shards| && SnapshotOf(cp.shards, seen, others, contents)
      ensures cp.head.root == SuperRoot(hs, RootsOf(cp.shards)) && cp.head.treeSize == TotalSize(cp.shards)
      ensures cp.head.origin == origin && cp.head.timestamp == now
      ensures Correct(sc) ==> Verified(sc, cp.head, sc.publicKey(key))
    {
      var heads: seq<ShardHead>;
      heads, seen := Snapshot(others);
      var total := 0;
      for i := 0 to |heads|
        invariant total == TotalSize(heads[..i])
      {
        assert heads[..i + 1][..i] == heads[..i];
        total := total + heads[i].size;
      }
      assert heads[..|heads|] == heads;
      cp := SuperCheckpoint(SignCheckpoint(sc, key, origin, total, SuperRoot(hs, RootsOf(heads)), now), heads);
    }

    /**
     A whole run: a super-checkpoint while others commit, any later commits,
     then a proof pinned to the checkpoint. It is accepted for the event exactly
     if the shard was recorded faithfully, which is exactly if no leaf was
     appended to it between its two reads, up to a collision of the byte hash.
     */
    method ProveLater(sc: Scheme, key: Key, now: string, others: nat -> seq<Request>, later: seq<Request>,
                      shard: nat, index: nat, ghost h: Bytes -> Digest, ghost width: nat)
      returns (cp: SuperCheckpoint, p: Option<ShardedProof>, ghost x: Bytes, ghost y: Bytes)
      requires Valid() && shard < |shards|
      modifies this
      ensures Valid() && Grown(old(contents), contents) && |cp.shards| == |shards|
      ensures p == PinnedShardedProof(hs, shards, cp.shards, shard, index)
      ensures index < cp.shards[shard].size ==>
        && p.Some? && index < |shards[shard]|
        && (AcceptsSharded(hs, shards[shard][index], p.value, cp.head.root)
            <==> Recorded(hs, cp.shards[shard], shards[shard]))
      ensures Quiet(others(2 * shard + 1), |shards|, shard) ==> Recorded(hs, cp.shards[shard], shards[shard])
      ensures BuiltFrom(hs, h, width) && Recorded(hs, cp.shards[shard], shards[shard]) ==>
        IsByteCollision(h, x, y) || Quiet(others(2 * shard + 1), |shards|, shard)
    {
      ghost var seen: seq<seq<Bytes>>;
      cp, seen := SignSuper(sc, key, now, others);
      ghost var recorded := contents;
      CommitAll(later);
      assert HeadRead(cp.shards[shard], seen[shard], others(2 * shard + 1), shard, recorded);
      assert seen[shard] <= recorded[shard] <= contents[shard];
      p := PinnedShardedProof(hs, shards, cp.shards, shard, index);
      if index < cp.shards[shard].size {
        PinnedAcceptedIff(hs, shards, cp.shards, shard, index);
      }
      x, y := [], [];
      if |seen[shard]| == cp.shards[shard].size {
        SameReadsRecord(hs, cp.shards[shard], seen[shard], contents[shard]);
      } else if BuiltFrom(hs, h, width) {
        x, y := RecordedIffSameReads(hs, h, width, cp.shards[shard], seen[shard], contents[shard]);
      }
    }

    /** None of the batches from `lo` to before `hi` appends a leaf to shard `s`. */
    predicate AllQuiet(others: nat -> seq<Request>, lo: nat, hi: nat, n: nat, s: nat) {
      forall t :: lo <= t < hi ==> Quiet(others(t), n, s)
    }

    /** What is known of the root of shard `i`, read before the batches from the `i + 1`-th to before the `n`-th. */
    ghost predicate RootRead(root: Digest, seen: seq<Bytes>, others: nat -> seq<Request>, i: nat, n: nat,
                             all: seq<seq<Bytes>>) {
      && i < |all| && root == Root(hs, seen) && seen <= all[i]
      && (seen == all[i] <==> AllQuiet(others, i + 1, n, |all|, i))
    }

    /** The same of roots that were read one after the other. */
    ghost predicate RootsRead(roots: seq<Digest>, seen: seq<seq<Bytes>>, others: nat -> seq<Request>, n: nat,
                              all: seq<seq<Bytes>>) {
      |roots| == |seen| && forall i :: 0 <= i < |roots| ==> RootRead(roots[i], seen[i], others, i, n, all)
    }

    /** The requests of the batch leave alone exactly the shards that they do not append to. */
    ghost predicate ChangedBy(before: seq<seq<Bytes>>, after: seq<seq<Bytes>>, reqs: seq<Request>) {
      Grown(before, after) &&
      forall s :: 0 <= s < |after| ==> (after[s] == before[s] <==> Quiet(reqs, |after|, s))
    }

    lemma RootReadGrown(root: Digest, seen: seq<Bytes>, others: nat -> seq<Request>, i: nat, n: nat,
                        before: seq<seq<Bytes>>, after: seq<seq<Bytes>>)
      requires RootRead(root, seen, others, i, n, before) && ChangedBy(before, after, others(n)) && i < n
      ensures RootRead(root, seen, others, i, n + 1, after)
    {
      assert seen <= before[i] <= after[i];
      assert AllQuiet(others, i + 1, n + 1, |after|, i)
        <==> AllQuiet(others, i + 1, n, |after|, i) && Quiet(others(n), |after|, i);
    }

    lemma RootsReadNext(roots: seq<Digest>, seen: seq<seq<Bytes>>, others: nat -> seq<Request>, n: nat,
                        before: seq<seq<Bytes>>, after: seq<seq<Bytes>>)
      requires RootsRead(roots, seen, others, n, before) && ChangedBy(before, after, others(n)) && |roots| <= n
      ensures RootsRead(roots, seen, others, n + 1, after)
    {
      forall i | 0 <= i < |roots| ensures RootRead(roots[i], seen[i], others, i, n + 1, after) {
        RootReadGrown(roots[i], seen[i], others, i, n, before, after);
      }
    }

    lemma RootsReadMore(roots: seq<Digest>, seen: seq<seq<Bytes>>, others: nat -> seq<Request>, all: seq<seq<Bytes>>,
                        root: Digest)
      requires RootsRead(roots, seen, others, |roots| + 1, all) && |roots| < |all| && root == Root(hs, all[|roots|])
      ensures RootsRead(roots + [root], seen + [all[|roots|]], others, |roots| + 1, all)
    {
      var i := |roots|;
      assert RootRead(root, all[i], others, i, i + 1, all);
    }

    /** Read the roots of all shards, one after the other. */
    method ShardRootsNow(others: nat -> seq<Request>) returns (roots: seq<Digest>, ghost seen: seq<seq<Bytes>>)
      requires Valid()
      modifies this
      ensures Valid() && Grown(old(contents), contents)
      ensures |roots| == |shards| && RootsRead(roots, seen, others, |shards|, contents)
    {
      roots, seen := [], [];
      for i := 0 to |shards|
        invariant Valid() && Grown(old(contents), contents)
        invariant |roots| == i && RootsRead(roots, seen, others, i, contents)
      {
        ghost var before := contents;
        CommitAll(others(i));
        RootsReadNext(roots, seen, others, i, before, contents);
        RootsReadMore(roots, seen, others, contents, TreeHash(hs, shards[i]));
        roots, seen := roots + [TreeHash(hs, shards[i])], seen + [contents[i]];
      }
    }

    /**
     A proof under the shards as they are, while others commit: the roots, the
     size and the leaves are read one after the other. It is accepted under the
     super-root of the roots that were read exactly if no leaf was appended to
     the shard between the reads of its root and its size, up to a collision.
     */
    method ProveNow(shard: int, index: int, others: nat -> seq<Request>, ghost h: Bytes -> Digest, ghost width: nat)
      returns (p: Option<ShardedProof>, roots: seq<Digest>, size: nat, ghost x: Bytes, ghost y: Bytes)
      requires Valid()
      modifies this
      ensures Valid() && Grown(old(contents), contents) && |roots| == |shards|
      ensures 0 <= shard < |shards| ==> size <= |shards[shard]|
      ensures p.Some? <==> 0 <= shard < |shards| && 0 <= index < size
      ensures p.Some? ==>
        (AcceptsSharded(hs, shards[shard][index], p.value, SuperRoot(hs, roots))
         <==> Recorded(hs, ShardHead(size, roots[shard]), shards[shard]))
      ensures p.Some? && AllQuiet(others, shard + 1, |shards| + 1, |shards|, shard) ==>
        Recorded(hs, ShardHead(size, roots[shard]), shards[shard])
      ensures p.Some? && BuiltFrom(hs, h, width) && Recorded(hs, ShardHead(size, roots[shard]), shards[shard]) ==>
        IsByteCollision(h, x, y) || AllQuiet(others, shard + 1, |shards| + 1, |shards|, shard)
    {
      ghost var seen: seq<seq<Bytes>>;
      x, y, size := [], [], 0;
      roots, seen := ShardRootsNow(others);
      ghost var before := contents;
      CommitAll(others(|shards|));
      RootsReadNext(roots, seen, others, |shards|, before, contents);
      if !(0 <= shard < |shards|) {
        return None, roots, size, x, y;
      }
      size := |shards[shard]|;
      ghost var sized := contents[shard];
      assert RootRead(roots[shard], seen[shard], others, shard, |shards| + 1, contents);
      CommitAll(others(|shards| + 1));
      assert seen[shard] <= sized <= contents[shard];
      var head := ShardHead(size, roots[shard]);
      p := ProofUnder(hs, shards, roots, head, shard, index);
      if |seen[shard]| == size {
        SameReadsRecord(hs, head, seen[shard], contents[shard]);
      } else if BuiltFrom(hs, h, width) {
        x, y := RecordedIffSameReads(hs, h, width, head, seen[shard], contents[shard]);
      }
    }
  }

  function TotalSize(heads: seq<ShardHead>): nat {
    if heads == [] then 0 else TotalSize(heads[..|heads| - 1]) + heads[|heads| - 1].size
  }

  /** All leaves, shard by shard. */
  function AllLeaves(shards: seq<seq<Digest>>): seq<Digest> {
    if shards == [] then [] else AllLeaves(shards[..|shards| - 1]) + shards[|shards| - 1]
  }

  /** The signed total is the number of all leaves in the recorded prefixes. */
  lemma {:induction false} TotalCountsLeaves(heads: seq<ShardHead>, shards: seq<seq<Digest>>)
    requires |heads| == |shards| && forall i :: 0 <= i < |heads| ==> heads[i].size == |shards[i]|
    ensures TotalSize(heads) == |AllLeaves(shards)|
    decreases |heads|
  {
    if heads != [] {
      TotalCountsLeaves(heads[..|heads| - 1], shards[..|shards| - 1]);
    }
  }

  function HeadsNow(hs: Hasher, shards: seq<seq<Digest>>): (heads: seq<ShardHead>)
    ensures |heads| == |shards|
    ensures forall i :: 0 <= i < |heads| ==> heads[i].size == |shards[i]| && Recorded(hs, heads[i], shards[i])
  {
    assert forall i :: 0 <= i < |shards| ==> shards[i][..|shards[i]|] == shards[i];
    seq(|shards|, i requires 0 <= i < |shards| => ShardHead(|shards[i]|, TreeHash(hs, shards[i])))
  }

  // ---- acceptance ----------------------------------------------------------

  /** A generated proof is accepted exactly if the recorded root belongs to the recorded size. */
  lemma {:induction false} PinnedAcceptedIff(hs: Hasher, shards: seq<seq<Digest>>, heads: seq<ShardHead>,
                                             shard: nat, index: nat)
    requires |heads| == |shards| && shard < |shards| && index < heads[shard].size <= |shards[shard]|
    ensures var p := PinnedShardedProof(hs, shards, heads, shard, index);
      && p.Some?
      && (AcceptsSharded(hs, shards[shard][index], p.value, SuperRoot(hs, RootsOf(heads)))
          <==> Recorded(hs, heads[shard], shards[shard]))
  {
    assert heads[..|shards|] == heads;
  }

  /** The failing read: a second leaf is appended between the reads of the size and the root of a shard of one. */
  lemma {:induction false} GrownBetweenReads(hs: Hasher, a: Digest, b: Digest)
    ensures Recorded(hs, ShardHead(|[a]|, TreeHash(hs, [a, b])), [a, b]) <==> hs.node(a, b) == a
  {
    TwoLeaves(hs, a, b);
    assert [a, b][..1] == [a];
  }

  /** The run in which that happens: a commit that lands between the two reads of a shard. */
  method SplitRead(ledger: ShardedLedger, shard: nat, req: Request, ghost h: Bytes -> Digest, ghost width: nat)
    returns (head: ShardHead, ghost x: Bytes, ghost y: Bytes)
    requires ledger.Valid() && shard < |ledger.shards|
    requires ledger.AppendsTo(req, |ledger.shards|, shard) && BuiltFrom(ledger.hs, h, width)
    modifies ledger
    ensures ledger.Valid() && shard < |ledger.shards|
    ensures !Recorded(ledger.hs, head, ledger.shards[shard]) || IsByteCollision(h, x, y)
  {
    ghost var seen: seq<Bytes>;
    head, seen := ledger.ReadShard(shard, [], [req]);
    assert [req][0] == req;
    x, y := RecordedIffSameReads(ledger.hs, h, width, head, seen, ledger.contents[shard]);
  }

  /** What contradicts an accepted false claim: two node preimages, or two leaf preimages. */
  datatype ShardCollision = Nodes(c: Collision) | Leaves(x: Bytes, y: Bytes)

  predicate IsShardCollision(hs: Hasher, c: ShardCollision) {
    match c
    case Nodes(nodes) => IsCollision(hs, nodes)
    case Leaves(x, y) => x != y && hs.leaf(x) == hs.leaf(y)
  }

  function ShardRoots(hs: Hasher, shards: seq<seq<Digest>>): (rs: seq<Digest>)
    ensures |rs| == |shards|
    ensures forall i :: 0 <= i < |rs| ==> rs[i] == TreeHash(hs, shards[i])
  {
    seq(|shards|, i requires 0 <= i < |shards| => TreeHash(hs, shards[i]))
  }

  /** The leaf is the one at that shard and index, and the proof is the generated one. */
  ghost predicate TrueSharded(hs: Hasher, shards: seq<seq<Digest>>, leaf: Digest, p: ShardedProof) {
    && 0 <= p.shardIndex < |shards| && 0 <= p.leafIndex < |shards[p.shardIndex]|
    && leaf == shards[p.shardIndex][p.leafIndex]
    && Some(p) == PinnedShardedProof(hs, shards, HeadsNow(hs, shards), p.shardIndex, p.leafIndex)
  }

  /** The claimed number of shards and size of the shard are the true ones. */
  predicate TrueSizes(shards: seq<seq<Digest>>, p: ShardedProof) {
    p.numShards == |shards| && 0 <= p.shardIndex < |shards| && p.shardSize == |shards[p.shardIndex]|
  }

  lemma {:induction false} TrueHasTrueSizes(hs: Hasher, shards: seq<seq<Digest>>, leaf: Digest, p: ShardedProof)
    requires TrueSharded(hs, shards, leaf, p)
    ensures TrueSizes(shards, p)
  {
    ProofNow(hs, shards, p.shardIndex, p.leafIndex);
  }

  /**
   From an accepted proof under the super-root of `shards`, compute a
   collision. Finding none means that the leaf is the one at that shard and
   index, and that the proof is the generated one, exactly if the sizes that
   the proof claims are the true ones.
   */
  function ShardedCollision(hs: Hasher, shards: seq<seq<Digest>>, leaf: Digest, p: ShardedProof)
    : (c: Option<ShardCollision>)
    requires AcceptsSharded(hs, leaf, p, SuperRoot(hs, ShardRoots(hs, shards)))
    ensures c.Some? ==> IsShardCollision(hs, c.value)
    ensures c.None? ==> (TrueSharded(hs, shards, leaf, p) <==> TrueSizes(shards, p))
  {
    if !TrueSizes(shards, p) then
      assert TrueSharded(hs, shards, leaf, p) ==> TrueSizes(shards, p) by {
        if TrueSharded(hs, shards, leaf, p) {
          TrueHasTrueSizes(hs, shards, leaf, p);
        }
      }
      None
    else
      var s := p.shardIndex;
      var roots := ShardRoots(hs, shards);
      var top := InclusionCollision(hs, LeafHashes(hs, roots), s, hs.leaf(p.shardRoot), p.superProof);
      if top.Some? then Some(Nodes(top.value))
      else if p.shardRoot != roots[s] then Some(Leaves(p.shardRoot, roots[s]))
      else
        var below := InclusionCollision(hs, shards[s], p.leafIndex, leaf, p.shardProof);
        ProofNow(hs, shards, s, p.leafIndex);
        if below.Some? then Some(Nodes(below.value)) else None
  }

  /**
   The shard's size must be known: under the size 1, the root of any larger
   shard passes for a leaf of it. It is no leaf: were it the hash of a content,
   two byte strings would have one hash.
   */
  lemma {:induction false} ShardSizeNeeded(hs: Hasher, h: Bytes -> Digest, width: nat, contents: seq<seq<Bytes>>, s: nat)
    requires BuiltFrom(hs, h, width) && s < |contents| && |contents[s]| > 1
    ensures var root := Root(hs, contents[s]);
      var roots := ShardRoots(hs, AllHashes(hs, contents));
      var superProof := SuperProof(hs, roots, s);
      && superProof.Some?
      && AcceptsSharded(hs, root, ShardedProof(s, |contents|, 0, 1, root, [], superProof.value), SuperRoot(hs, roots))
      && (forall c: Bytes :: hs.leaf(c) == root ==> IsByteCollision(h, LEAF_PREFIX + c, RootPreimage(hs, contents[s])))
      && (forall i :: 0 <= i < |contents[s]| && LeafHashes(hs, contents[s])[i] == root ==>
            IsByteCollision(h, LEAF_PREFIX + contents[s][i], RootPreimage(hs, contents[s])))
  {
    var root := Root(hs, contents[s]);
    InclusionComplete(hs, LeafHashes(hs, ShardRoots(hs, AllHashes(hs, contents))), s);
    InclusionComplete(hs, [root], 0);
    RootPreimageHashes(hs, h, width, contents[s]);
    assert RootPreimage(hs, contents[s])[0] == 1;
    assert forall c: Bytes :: (LEAF_PREFIX + c)[0] == 0;
  }

  /** The true root of the claimed shard, or two byte strings with one hash. */
  lemma {:induction false} ShardRootSound(hs: Hasher, h: Bytes -> Digest, width: nat, roots: seq<Digest>, root: Digest,
                                          shard: int, proof: seq<Digest>)
    returns (x: Bytes, y: Bytes)
    requires BuiltFrom(hs, h, width)
    requires AcceptsInclusion(hs, shard, |roots|, hs.leaf(root), proof, SuperRoot(hs, roots))
    ensures IsByteCollision(h, x, y) || (root == roots[shard] && Some(proof) == SuperProof(hs, roots, shard))
  {
    LeafHashesWide(hs, h, width, roots);
    x, y := InclusionSound(hs, h, width, LeafHashes(hs, roots), shard, hs.leaf(root), proof);
    if !IsByteCollision(h, x, y) && root != roots[shard] {
      x, y := LEAF_PREFIX + root, LEAF_PREFIX + roots[shard];
      assert x[1..] == root && y[1..] == roots[shard];
    }
  }

  /**
   An accepted proof under the super-root: unless two byte strings with one
   hash are at hand, it is the true proof of the true leaf exactly if the sizes
   that it claims are the true ones and the leaf has digest width.
   */
  lemma {:induction false} ShardedSound(hs: Hasher, h: Bytes -> Digest, width: nat, contents: seq<seq<Bytes>>,
                                        leaf: Digest, p: ShardedProof)
    returns (x: Bytes, y: Bytes)
    requires BuiltFrom(hs, h, width)
    requires AcceptsSharded(hs, leaf, p, SuperRoot(hs, ShardRoots(hs, AllHashes(hs, contents))))
    ensures IsByteCollision(h, x, y) ||
      (TrueSharded(hs, AllHashes(hs, contents), leaf, p)
       <==> TrueSizes(AllHashes(hs, contents), p) && |leaf| == width)
  {
    x, y := [], [];
    var shards := AllHashes(hs, contents);
    if TrueSharded(hs, shards, leaf, p) {
      TrueHasTrueSizes(hs, shards, leaf, p);
    } else if TrueSizes(shards, p) && |leaf| == width {
      x, y := ShardedTrue(hs, h, width, contents, leaf, p);
    }
  }

  lemma {:induction false} ShardedTrue(hs: Hasher, h: Bytes -> Digest, width: nat, contents: seq<seq<Bytes>>,
                                       leaf: Digest, p: ShardedProof)
    returns (x: Bytes, y: Bytes)
    requires BuiltFrom(hs, h, width)
    requires AcceptsSharded(hs, leaf, p, SuperRoot(hs, ShardRoots(hs, AllHashes(hs, contents))))
    requires TrueSizes(AllHashes(hs, contents), p) && |leaf| == width
    ensures IsByteCollision(h, x, y) || TrueSharded(hs, AllHashes(hs, contents), leaf, p)
  {
    var shards, s := AllHashes(hs, contents), p.shardIndex;
    x, y := ShardRootSound(hs, h, width, ShardRoots(hs, shards), p.shardRoot, s, p.superProof);
    if !IsByteCollision(h, x, y) {
      LeafHashesWide(hs, h, width, contents[s]);
      x, y := InclusionSound(hs, h, width, shards[s], p.leafIndex, leaf, p.shardProof);
      ProofNow(hs, shards, s, p.leafIndex);
    }
  }

  /**
   Whatever sizes are claimed: the hash of a content that is accepted is that
   of some content of some shard, and of the claimed shard if the number of
   shards is the true one, or two byte strings with one hash are at hand.
   */
  lemma {:induction false} ShardedMember(hs: Hasher, h: Bytes -> Digest, width: nat, contents: seq<seq<Bytes>>,
                                         content: Bytes, p: ShardedProof)
    returns (s: nat, i: nat, x: Bytes, y: Bytes)
    requires BuiltFrom(hs, h, width)
    requires AcceptsSharded(hs, hs.leaf(content), p, SuperRoot(hs, ShardRoots(hs, AllHashes(hs, contents))))
    ensures IsByteCollision(h, x, y) ||
      (s < |contents| && i < |contents[s]| && contents[s][i] == content &&
       (p.numShards == |contents| ==> s == p.shardIndex))
  {
    var roots := ShardRoots(hs, AllHashes(hs, contents));
    s, i := 0, 0;
    if p.numShards == |contents| {
      s := p.shardIndex;
      x, y := ShardRootSound(hs, h, width, roots, p.shardRoot, s, p.superProof);
    } else {
      s, x, y := MemberSound(hs, h, width, roots, p.shardRoot, p.shardIndex, p.numShards, p.superProof);
    }
    if !IsByteCollision(h, x, y) {
      assert p.shardRoot == Root(hs, contents[s]);
      i, x, y := MemberSound(hs, h, width, contents[s], content, p.leafIndex, p.shardSize, p.shardProof);
    }
  }

  lemma {:induction false} RootsNow(hs: Hasher, shards: seq<seq<Digest>>)
    ensures RootsOf(HeadsNow(hs, shards)) == ShardRoots(hs, shards)
  {
    var heads := HeadsNow(hs, shards);
    forall k | 0 <= k < |shards| ensures heads[k].root == TreeHash(hs, shards[k]) {
      assert shards[k][..|shards[k]|] == shards[k];
    }
  }

  /** The proof that is generated under the shards as they are. */
  lemma {:induction false} ProofNow(hs: Hasher, shards: seq<seq<Digest>>, s: nat, i: nat)
    requires s < |shards| && i < |shards[s]|
    ensures PinnedShardedProof(hs, shards, HeadsNow(hs, shards), s, i)
         == Some(ShardedProof(s, |shards|, i, |shards[s]|, TreeHash(hs, shards[s]), AuditPath(hs, shards[s], i),
                              AuditPath(hs, LeafHashes(hs, ShardRoots(hs, shards)), s)))
  {
    var heads := HeadsNow(hs, shards);
    RootsNow(hs, shards);
    assert heads[..|shards|] == heads;
    assert FirstLeaves(shards[s], |shards[s]|) == shards[s];
  }
}
