/**
 The ledger: an append-only file of events kept in step with the list of leaf
 hashes and the incremental tree. Proofs can be pinned to an earlier size.
 */
module Ledger {
  import opened Prelude
  import opened Merkle
  import opened MerkleProofs
  import opened HashBytes
  import opened LogContents
  import opened Frontier
  import opened LineFile
  import opened FileLedger
  import opened Json
  import opened Canonical
  import opened Signing
  import opened Witness
  import opened Anchor

  datatype LedgerFields = LedgerFields(leafHash: Digest, leafIndex: nat, committedAt: string)

  /** An event: its content, and the fields that commitment assigns, which are no part of the leaf. */
  datatype Event = Event(body: Value, ledger: Option<LedgerFields>)

  /** The leaf hash of an event's content; `None` where canonical serialization refuses it. */
  function LeafOf(hs: Hasher, body: Value): Option<Digest> {
    match CanonicalBytes(body)
    case None => None
    case Some(bs) => Some(hs.leaf(bs))
  }

  /** The content with its identifier, which is derived from the rest of the content. */
  function Finalized(idOf: Bytes -> string, body: Value): Value {
    if !body.Obj? then body
    else
      match CanonicalBytes(Obj(body.members - {"event_id"}))
      case None => body
      case Some(bs) => Obj(body.members["event_id" := Str(idOf(bs))])
  }

  /** The identifier depends on the rest of the content alone: one that was there before makes no difference. */
  lemma FinalizedIgnoresId(idOf: Bytes -> string, body: Value, id: Value)
    requires body.Obj? && CanonicalBytes(Obj(body.members - {"event_id"})).Some?
    ensures Finalized(idOf, Obj(body.members["event_id" := id])) == Finalized(idOf, body)
    ensures Finalized(idOf, Finalized(idOf, body)) == Finalized(idOf, body)
  {
    var rest := body.members - {"event_id"};
    var derived := Finalized(idOf, body).members["event_id"];
    assert body.members["event_id" := id] - {"event_id"} == rest;
    assert body.members["event_id" := derived] - {"event_id"} == rest;
    assert body.members["event_id" := id]["event_id" := derived] == body.members["event_id" := derived];
    assert body.members["event_id" := derived]["event_id" := derived] == body.members["event_id" := derived];
  }

  /** Record `i` was committed: its leaf hash is that of its content, its index is its position. */
  predicate Committed(hs: Hasher, e: Event, i: nat) {
    && e.ledger.Some?
    && e.ledger.value.leafIndex == i
    && LeafOf(hs, e.body) == Some(e.ledger.value.leafHash)
  }

  predicate AllCommitted(hs: Hasher, records: seq<Event>) {
    forall i :: 0 <= i < |records| ==> Committed(hs, records[i], i)
  }

  /** The leaf hashes stored in the records. */
  function StoredLeaves(records: seq<Event>): (r: seq<Digest>)
    requires forall i :: 0 <= i < |records| ==> records[i].ledger.Some?
    ensures |r| == |records|
    ensures forall i :: 0 <= i < |r| ==> r[i] == records[i].ledger.value.leafHash
  {
    seq(|records|, i requires 0 <= i < |records| => records[i].ledger.value.leafHash)
  }

  lemma {:induction false} CommitOne(hs: Hasher, records: seq<Event>, e: Event)
    requires AllCommitted(hs, records) && Committed(hs, e, |records|)
    ensures AllCommitted(hs, records + [e])
    ensures StoredLeaves(records + [e]) == StoredLeaves(records) + [e.ledger.value.leafHash]
  {
  }

  class EvidenceLedger {
    const hs: Hasher
    const idOf: Bytes -> string
    const origin: string
    const backend: FileLedgerBackend<Event>
    const tree: IncrementalMerkleTree
    var leaves: seq<Digest>

    ghost predicate Valid()
      reads this, backend, tree
    {
      && backend.Valid() && AllCommitted(hs, backend.records)
      && leaves == StoredLeaves(backend.records)
      && tree.Valid() && tree.hs == hs && tree.Leaves() == leaves
    }

    ghost function Records(): seq<Event>
      reads backend
    {
      backend.records
    }

    /** Open a ledger on what the backend holds. */
    constructor (hs: Hasher, idOf: Bytes -> string, origin: string, backend: FileLedgerBackend<Event>)
      requires backend.Valid() && AllCommitted(hs, backend.records)
      ensures Valid() && fresh(tree)
      ensures this.hs == hs && this.backend == backend && this.idOf == idOf && this.origin == origin
      ensures leaves == StoredLeaves(backend.records)
    {
      this.hs, this.idOf, this.origin, this.backend := hs, idOf, origin, backend;
      var rs := backend.IterRecords();
      var hashes := StoredLeaves(rs);
      leaves := hashes;
      tree := new IncrementalMerkleTree.FromLeaves(hs, hashes);
    }

    /** `None`, and no change, where the content cannot be serialized. */
    method Commit(body: Value, now: string) returns (e: Option<Event>)
      requires Valid()
      modifies this, backend, tree
      ensures Valid()
      ensures var leaf := LeafOf(hs, Finalized(idOf, body));
        if leaf.None? then
          e.None? && leaves == old(leaves) && Records() == old(Records())
        else
          && e == Some(Event(Finalized(idOf, body), Some(LedgerFields(leaf.value, |old(leaves)|, now))))
          && leaves == old(leaves) + [leaf.value]
          && Records() == old(Records()) + [e.value]
    {
      var content := Finalized(idOf, body);
      var leaf := LeafOf(hs, content);
      if leaf.None? {
        return None;
      }
      var index := backend.Size();
      var event := Event(content, Some(LedgerFields(leaf.value, index, now)));
      CommitOne(hs, backend.records, event);
      backend.AppendRecord(event);
      leaves := leaves + [leaf.value];
      tree.Append(leaf.value);
      e := Some(event);
    }

    method Size() returns (n: nat)
      requires Valid()
      ensures n == |leaves| == |Records()|
    {
      n := |leaves|;
    }

    /** `None` where the source raises IndexError. */
    method GetEvent(index: int) returns (e: Option<Event>)
      requires Valid()
      ensures e == if 0 <= index < |Records()| then Some(Records()[index]) else None
    {
      e := backend.GetRecord(index);
    }

    method Root() returns (root: Digest)
      requires Valid()
      ensures root == TreeHash(hs, leaves)
    {
      root := tree.Root();
    }

    /** The audit path of leaf `index` in the tree of the first `treeSize` leaves. */
    method PinnedInclusionProof(index: int, treeSize: nat) returns (proof: Option<seq<Digest>>)
      requires Valid()
      ensures proof == InclusionProof(hs, FirstLeaves(leaves, treeSize), index)
      ensures 0 <= index < treeSize <= |leaves| ==>
        && proof.Some?
        && AcceptsInclusion(hs, index, treeSize, leaves[index], proof.value, TreeHash(hs, leaves[..treeSize]))
    {
      proof := InclusionProof(hs, FirstLeaves(leaves, treeSize), index);
      if 0 <= index < treeSize <= |leaves| {
        InclusionComplete(hs, leaves[..treeSize], index);
      }
    }

    method PinnedConsistencyProof(oldSize: int, treeSize: nat) returns (proof: Option<seq<Digest>>)
      requires Valid()
      ensures proof == ConsistencyProof(hs, FirstLeaves(leaves, treeSize), oldSize)
      ensures 0 < oldSize <= treeSize <= |leaves| ==>
        && proof.Some?
        && AcceptsConsistency(hs, oldSize, treeSize, TreeHash(hs, leaves[..oldSize]), TreeHash(hs, leaves[..treeSize]),
                              proof.value)
    {
      proof := ConsistencyProof(hs, FirstLeaves(leaves, treeSize), oldSize);
      if 0 < oldSize <= treeSize <= |leaves| {
        ConsistencyComplete(hs, leaves[..treeSize], oldSize);
        assert leaves[..treeSize][..oldSize] == leaves[..oldSize];
      }
    }

    /** A signed head over the leaves as they are now. */
    method SignHead(sc: Scheme, key: Key, now: string) returns (cp: Checkpoint)
      requires Valid()
      ensures cp.treeSize == |leaves| && HeadOf(hs, cp, leaves) && cp.origin == origin && cp.timestamp == now
      ensures Correct(sc) ==> Verified(sc, cp, sc.publicKey(key))
    {
      var root := tree.Root();
      cp := SignCheckpoint(sc, key, origin, |leaves|, root, now);
      assert leaves[..|leaves|] == leaves;
    }
  }

  /** A slice never fails: a size beyond the end gives all leaves. */
  function FirstLeaves(leaves: seq<Digest>, n: nat): seq<Digest> {
    if n <= |leaves| then leaves[..n] else leaves
  }

  /**
   Reopen after the file was cut at any byte: the ledger then holds the leaves
   of the surviving records, a prefix of those that were committed.
   */
  method ReopenAfterCut(hs: Hasher, idOf: Bytes -> string, origin: string, codec: Codec<Event>, data: Bytes,
                        ghost written: seq<Event>, ghost k: nat)
    returns (ledger: EvidenceLedger)
    requires Faithful(codec) && AllCommitted(hs, written)
    requires k <= |Content(codec, written)| && data == Content(codec, written)[..k]
    ensures ledger.Valid() && fresh(ledger)
    ensures ledger.Records() == written[..Surviving(codec, written, k)]
    ensures ledger.leaves == StoredLeaves(written)[..Surviving(codec, written, k)]
  {
    var backend := new FileLedgerBackend(codec, data, written, k);
    assert AllCommitted(hs, backend.records);
    ledger := new EvidenceLedger(hs, idOf, origin, backend);
  }

  // ---- growth --------------------------------------------------------------

  /** A proof pinned to a head is accepted against it, whatever was committed since. */
  lemma PinnedProofAccepted(hs: Hasher, leaves: seq<Digest>, cp: Checkpoint, index: nat)
    requires HeadOf(hs, cp, leaves) && index < cp.treeSize
    ensures InclusionProof(hs, FirstLeaves(leaves, cp.treeSize), index).Some?
    ensures AcceptsInclusion(hs, index, cp.treeSize, leaves[index],
                             InclusionProof(hs, FirstLeaves(leaves, cp.treeSize), index).value, cp.root)
  {
    InclusionComplete(hs, leaves[..cp.treeSize], index);
  }

  /** A head of a log is a head of every later state of it. */
  lemma HeadsSurviveGrowth(hs: Hasher, cp: Checkpoint, before: seq<Digest>, after: seq<Digest>)
    requires HeadOf(hs, cp, before) && before <= after
    ensures HeadOf(hs, cp, after)
  {
    assert after[..cp.treeSize] == before[..cp.treeSize];
  }

  /** Both heads are signed by the trusted key and the newer log extends the older; no key, no trust. */
  method VerifyConsistencyBetween(hs: Hasher, sc: Scheme, older: Checkpoint, newer: Checkpoint, proof: seq<Digest>,
                                  trusted: Option<PublicKey>)
    returns (ok: bool)
    ensures ok == AcceptsBetween(hs, sc, older, newer, proof, trusted)
  {
    if trusted.None? || !Verified(sc, older, trusted.value) || !Verified(sc, newer, trusted.value) {
      return false;
    }
    ok := VerifyConsistency(hs, older.treeSize, newer.treeSize, older.root, newer.root, proof);
  }

  predicate AcceptsBetween(hs: Hasher, sc: Scheme, older: Checkpoint, newer: Checkpoint, proof: seq<Digest>,
                           trusted: Option<PublicKey>) {
    && trusted.Some? && Verified(sc, older, trusted.value) && Verified(sc, newer, trusted.value)
    && AcceptsConsistency(hs, older.treeSize, newer.treeSize, older.root, newer.root, proof)
  }

  /** Two signed heads of one log pass with the proof that it generates, pinned to the newer head, at any later time. */
  lemma HeadsOfOneLogPass(hs: Hasher, sc: Scheme, leaves: seq<Digest>, older: Checkpoint, newer: Checkpoint,
                          pk: PublicKey)
    requires HeadOf(hs, older, leaves) && HeadOf(hs, newer, leaves) && 0 < older.treeSize <= newer.treeSize
    requires Verified(sc, older, pk) && Verified(sc, newer, pk)
    ensures var proof := ConsistencyProof(hs, FirstLeaves(leaves, newer.treeSize), older.treeSize);
      proof.Some? && AcceptsBetween(hs, sc, older, newer, proof.value, Some(pk))
  {
    var pinned := leaves[..newer.treeSize];
    ConsistencyComplete(hs, pinned, older.treeSize);
    assert pinned[..older.treeSize] == leaves[..older.treeSize];
  }

  /** Heads that pass belong to one log: any two lists with these roots are prefix and extension, or collide. */
  function BetweenCollision(hs: Hasher, sc: Scheme, older: Checkpoint, newer: Checkpoint, proof: seq<Digest>,
                            trusted: Option<PublicKey>, a: seq<Digest>, b: seq<Digest>): (c: Option<Collision>)
    requires AcceptsBetween(hs, sc, older, newer, proof, trusted)
    requires |a| == older.treeSize && TreeHash(hs, a) == older.root
    requires |b| == newer.treeSize && TreeHash(hs, b) == newer.root
    ensures c.Some? ==> IsCollision(hs, c.value)
    ensures c.None? ==> a <= b
  {
    PrefixCollision(hs, a, b, proof)
  }

  /** The same for contents and down to the byte hash, where the walk starts from a digest of the right width. */
  lemma {:induction false} BetweenSound(hs: Hasher, h: Bytes -> Digest, width: nat, sc: Scheme, older: Checkpoint,
                                        newer: Checkpoint, proof: seq<Digest>, trusted: Option<PublicKey>,
                                        a: seq<Bytes>, b: seq<Bytes>)
    returns (x: Bytes, y: Bytes)
    requires BuiltFrom(hs, h, width) && AcceptsBetween(hs, sc, older, newer, proof, trusted)
    requires |a| == older.treeSize && LogContents.Root(hs, a) == older.root
    requires |b| == newer.treeSize && LogContents.Root(hs, b) == newer.root
    requires 0 < |a| < |b| ==> StartsWide(|a|, older.root, proof, width)
    ensures a <= b || IsByteCollision(h, x, y)
  {
    x, y := [], [];
    var leaves := LeafHashes(hs, b);
    if |a| == |b| {
      x, y := ContentCollision(hs, h, width, a, b);
    } else if 0 < |a| {
      LeafHashesWide(hs, h, width, b);
      x, y := ConsistencySound(hs, h, width, leaves, |a|, older.root, proof);
      if !IsByteCollision(h, x, y) {
        LeafHashesSplit(hs, b, |a|);
        x, y := ContentCollision(hs, h, width, a, b[..|a|]);
      }
    }
  }

  // ---- one log is never accused of a split view ----------------------------

  /** What a run does with a ledger. */
  datatype Act = DoCommit(body: Value, now: string) | DoPublish(now: string)

  /** Run any mix of commits and published heads. Every published head is one of the final log. */
  method RunLog(ledger: EvidenceLedger, anchor: TransparencyAnchor, sc: Scheme, key: Key, acts: seq<Act>)
    requires ledger.Valid() && anchor.published == []
    modifies ledger, ledger.backend, ledger.tree, anchor
    ensures ledger.Valid()
    ensures forall i :: 0 <= i < |anchor.published| ==> HeadOf(ledger.hs, anchor.published[i], ledger.leaves)
  {
    for k := 0 to |acts|
      invariant ledger.Valid()
      invariant forall i :: 0 <= i < |anchor.published| ==> HeadOf(ledger.hs, anchor.published[i], ledger.leaves)
    {
      match acts[k]
      case DoCommit(body, now) =>
        ghost var before := ledger.leaves;
        var e := ledger.Commit(body, now);
        forall i | 0 <= i < |anchor.published| ensures HeadOf(ledger.hs, anchor.published[i], ledger.leaves) {
          HeadsSurviveGrowth(ledger.hs, anchor.published[i], before, ledger.leaves);
        }
      case DoPublish(now) =>
        var cp := ledger.SignHead(sc, key, now);
        anchor.Publish(cp);
    }
  }

  /** The supplied proofs are those that the log generates. */
  predicate Generated(hs: Hasher, leaves: seq<Digest>, proofs: seq<Supplied>) {
    forall k :: 0 <= k < |proofs| ==>
      && 0 < proofs[k].m <= proofs[k].n <= |leaves|
      && ConsistencyProof(hs, leaves[..proofs[k].n], proofs[k].m) == Some(proofs[k].proof)
  }

  /** Heads of one log, with proofs that it generated, are never taken for a split view. */
  lemma HonestLogNotAccused(hs: Hasher, sc: Scheme, pk: PublicKey, cps: seq<Checkpoint>, leaves: seq<Digest>,
                            proofs: seq<Supplied>)
    requires forall i :: 0 <= i < |cps| ==> HeadOf(hs, cps[i], leaves)
    requires Generated(hs, leaves, proofs)
    ensures !HasFork(sc, pk, cps) && ProofsAccepted(hs, sc, pk, cps, proofs)
  {
    forall i, j | 0 <= i < |cps| && 0 <= j < |cps| ensures !Conflict(sc, pk, cps[i], cps[j]) {
      assert HeadOf(hs, cps[i], leaves) && HeadOf(hs, cps[j], leaves);
    }
    forall k, i, j | 0 <= k < |proofs| && 0 <= i < |cps| && 0 <= j < |cps|
      ensures PairAccepted(hs, sc, pk, cps[i], cps[j], proofs[k])
    {
      HonestPair(hs, sc, pk, cps[i], cps[j], proofs[k], leaves);
    }
  }

  /** The whole run: publish heads while committing, generate proofs for any pairs of sizes, and run the detector. */
  method AuditRun(ledger: EvidenceLedger, anchor: TransparencyAnchor, sc: Scheme, key: Key, acts: seq<Act>,
                  pairs: seq<(int, nat)>)
    returns (e: Option<Equivocation>)
    requires ledger.Valid() && anchor.published == []
    modifies ledger, ledger.backend, ledger.tree, anchor
    ensures e.None?
  {
    RunLog(ledger, anchor, sc, key, acts);
    var proofs := GenerateProofs(ledger, pairs);
    HonestLogNotAccused(ledger.hs, sc, sc.publicKey(key), anchor.published, ledger.leaves, proofs);
    e := DetectEquivocation(ledger.hs, sc, sc.publicKey(key), anchor.published, proofs);
  }

  /** A pair of sizes beyond the log, or for which generation raises an error, yields no proof. */
  method GenerateProofs(ledger: EvidenceLedger, pairs: seq<(int, nat)>) returns (proofs: seq<Supplied>)
    requires ledger.Valid()
    ensures Generated(ledger.hs, ledger.leaves, proofs)
  {
    proofs := [];
    for k := 0 to |pairs|
      invariant Generated(ledger.hs, ledger.leaves, proofs)
    {
      var (m, n) := pairs[k];
      var size := ledger.Size();
      var proof := ledger.PinnedConsistencyProof(m, n);
      if n <= size && proof.Some? {
        proofs := proofs + [Supplied(m, n, proof.value)];
      }
    }
  }

  lemma HonestPair(hs: Hasher, sc: Scheme, pk: PublicKey, a: Checkpoint, b: Checkpoint, p: Supplied,
                   leaves: seq<Digest>)
    requires HeadOf(hs, a, leaves) && HeadOf(hs, b, leaves)
    requires 0 < p.m <= p.n <= |leaves| && ConsistencyProof(hs, leaves[..p.n], p.m) == Some(p.proof)
    ensures PairAccepted(hs, sc, pk, a, b, p)
  {
    ConsistencyComplete(hs, leaves[..p.n], p.m);
    assert leaves[..p.n][..p.m] == leaves[..p.m];
  }

  /** Between two signed heads of one log the generated proof is accepted and no other one, or there is a collision. */
  lemma {:induction false} OnlyTrueProofPasses(hs: Hasher, sc: Scheme, pk: PublicKey, a: Checkpoint, b: Checkpoint,
                                               p: Supplied, leaves: seq<Digest>)
    returns (c: Option<Collision>)
    requires HeadOf(hs, a, leaves) && HeadOf(hs, b, leaves) && Verified(sc, a, pk) && Verified(sc, b, pk)
    requires a.treeSize == p.m < p.n == b.treeSize
    ensures c.Some? ==> IsCollision(hs, c.value)
    ensures c.None? ==> (PairAccepted(hs, sc, pk, a, b, p) <==> p.proof == GrowthProof(hs, leaves[..p.n], p.m))
  {
    c := ConsistencyExact(hs, leaves[..p.n], p.m, a.root, p.proof);
    assert leaves[..p.n][..p.m] == leaves[..p.m];
  }
}
