/**
 Detecting a split view among published heads, and why an honest log is never
 accused of one.
 */
module Anchor {
  import opened Prelude
  import opened Merkle
  import opened MerkleProofs
  import opened Signing

  /** Evidence of a split view. */
  datatype Equivocation =
    | Fork(treeSize: nat, a: Checkpoint, b: Checkpoint)
    | Rewritten(treeSize: nat, a: Checkpoint, b: Checkpoint)

  /** A supplied consistency proof between two sizes. */
  datatype Supplied = Supplied(m: nat, n: nat, proof: seq<Digest>)

  class TransparencyAnchor {
    var published: seq<Checkpoint>

    constructor ()
      ensures published == []
    {
      published := [];
    }

    method Publish(cp: Checkpoint)
      modifies this
      ensures published == old(published) + [cp]
    {
      published := published + [cp];
    }
  }

  // ---- specification -------------------------------------------------------

  predicate Conflict(sc: Scheme, pk: PublicKey, a: Checkpoint, b: Checkpoint) {
    Verified(sc, a, pk) && Verified(sc, b, pk) && a.treeSize == b.treeSize && a.root != b.root
  }

  /** Two validly signed heads of equal size have different roots. */
  predicate HasFork(sc: Scheme, pk: PublicKey, cps: seq<Checkpoint>) {
    exists i, j :: 0 <= i < |cps| && 0 <= j < |cps| && Conflict(sc, pk, cps[i], cps[j])
  }

  /** Every supplied proof between two sizes of validly signed heads is accepted. */
  predicate ProofsAccepted(hs: Hasher, sc: Scheme, pk: PublicKey, cps: seq<Checkpoint>, proofs: seq<Supplied>) {
    forall k, i, j :: 0 <= k < |proofs| && 0 <= i < |cps| && 0 <= j < |cps| ==>
      PairAccepted(hs, sc, pk, cps[i], cps[j], proofs[k])
  }

  /** If the proof is one between these two heads, both validly signed, it is accepted. */
  predicate PairAccepted(hs: Hasher, sc: Scheme, pk: PublicKey, a: Checkpoint, b: Checkpoint, p: Supplied) {
    Verified(sc, a, pk) && Verified(sc, b, pk) && a.treeSize == p.m && b.treeSize == p.n && p.m < p.n ==>
      AcceptsConsistency(hs, p.m, p.n, a.root, b.root, p.proof)
  }

  /** What an equivocation proof has to show. */
  predicate Genuine(hs: Hasher, sc: Scheme, pk: PublicKey, cps: seq<Checkpoint>, proofs: seq<Supplied>,
                    e: Equivocation) {
    && e.a in cps && e.b in cps
    && match e
       case Fork(n, a, b) => Conflict(sc, pk, a, b) && a.treeSize == n
       case Rewritten(n, a, b) =>
         && Verified(sc, a, pk) && Verified(sc, b, pk) && a.treeSize < b.treeSize == n
         && (exists k :: 0 <= k < |proofs| && proofs[k].m == a.treeSize && proofs[k].n == n &&
                         !AcceptsConsistency(hs, a.treeSize, n, a.root, b.root, proofs[k].proof))
  }

  // ---- the detector --------------------------------------------------------

  /** The heads seen so far, by size. */
  ghost predicate Indexed(sc: Scheme, pk: PublicKey, cps: seq<Checkpoint>, n: nat, bySize: map<nat, Checkpoint>) {
    && n <= |cps|
    && (forall z :: z in bySize ==> bySize[z] in cps && Verified(sc, bySize[z], pk) && bySize[z].treeSize == z)
    && (forall i :: 0 <= i < n && Verified(sc, cps[i], pk) ==>
        cps[i].treeSize in bySize && bySize[cps[i].treeSize].root == cps[i].root)
  }

  /** The first scan: index the validly signed heads by size, or find a fork. */
  method FindFork(sc: Scheme, pk: PublicKey, cps: seq<Checkpoint>)
    returns (e: Option<Equivocation>, bySize: map<nat, Checkpoint>)
    ensures e.Some? <==> HasFork(sc, pk, cps)
    ensures e.Some? ==> e.value.Fork? && e.value.a in cps && e.value.b in cps
                        && Conflict(sc, pk, e.value.a, e.value.b) && e.value.a.treeSize == e.value.treeSize
    ensures e.None? ==> Indexed(sc, pk, cps, |cps|, bySize)
  {
    bySize := map[];
    for n := 0 to |cps|
      invariant Indexed(sc, pk, cps, n, bySize)
    {
      var cp := cps[n];
      if Verified(sc, cp, pk) {
        if cp.treeSize in bySize && bySize[cp.treeSize].root != cp.root {
          ForkFound(sc, pk, cps, n, bySize);
          return Some(Fork(cp.treeSize, bySize[cp.treeSize], cp)), bySize;
        }
        IndexedNext(sc, pk, cps, n, bySize);
        bySize := bySize[cp.treeSize := cp];
      }
    }
    NoForkIndexed(sc, pk, cps, bySize);
    e := None;
  }

  lemma {:induction false} ForkFound(sc: Scheme, pk: PublicKey, cps: seq<Checkpoint>, n: nat,
                                     bySize: map<nat, Checkpoint>)
    requires Indexed(sc, pk, cps, n, bySize) && n < |cps| && Verified(sc, cps[n], pk)
    requires cps[n].treeSize in bySize && bySize[cps[n].treeSize].root != cps[n].root
    ensures Conflict(sc, pk, bySize[cps[n].treeSize], cps[n]) && HasFork(sc, pk, cps)
  {
    var prev := bySize[cps[n].treeSize];
    var i :| 0 <= i < |cps| && cps[i] == prev;
    assert Conflict(sc, pk, cps[i], cps[n]);
  }

  lemma IndexedNext(sc: Scheme, pk: PublicKey, cps: seq<Checkpoint>, n: nat, bySize: map<nat, Checkpoint>)
    requires Indexed(sc, pk, cps, n, bySize) && n < |cps| && Verified(sc, cps[n], pk)
    requires cps[n].treeSize in bySize ==> bySize[cps[n].treeSize].root == cps[n].root
    ensures Indexed(sc, pk, cps, n + 1, bySize[cps[n].treeSize := cps[n]])
  {
  }

  lemma NoForkIndexed(sc: Scheme, pk: PublicKey, cps: seq<Checkpoint>, bySize: map<nat, Checkpoint>)
    requires Indexed(sc, pk, cps, |cps|, bySize)
    ensures !HasFork(sc, pk, cps)
  {
  }

  /** Evidence is returned exactly when there is a fork or a supplied proof fails, and it is genuine. */
  method DetectEquivocation(hs: Hasher, sc: Scheme, pk: PublicKey, cps: seq<Checkpoint>, proofs: seq<Supplied>)
    returns (e: Option<Equivocation>)
    ensures e.None? <==> !HasFork(sc, pk, cps) && ProofsAccepted(hs, sc, pk, cps, proofs)
    ensures e.Some? ==> Genuine(hs, sc, pk, cps, proofs, e.value)
  {
    var bySize: map<nat, Checkpoint>;
    e, bySize := FindFork(sc, pk, cps);
    if e.Some? {
      return;
    }
    var bad := FindRejected(hs, bySize, proofs);
    if bad.Some? {
      var p := proofs[bad.value];
      NotAccepted(hs, sc, pk, cps, proofs, bySize, bad.value);
      return Some(Rewritten(p.n, bySize[p.m], bySize[p.n]));
    }
    AllAccepted(hs, sc, pk, cps, proofs, bySize);
    e := None;
  }

  /** The second scan: the first supplied proof between indexed sizes that is not accepted. */
  method FindRejected(hs: Hasher, bySize: map<nat, Checkpoint>, proofs: seq<Supplied>) returns (bad: Option<nat>)
    ensures bad.Some? ==> bad.value < |proofs| && !Accepted(hs, bySize, proofs[bad.value])
    ensures bad.None? ==> forall k :: 0 <= k < |proofs| ==> Accepted(hs, bySize, proofs[k])
  {
    for k := 0 to |proofs|
      invariant forall k' :: 0 <= k' < k ==> Accepted(hs, bySize, proofs[k'])
    {
      var p := proofs[k];
      if p.m in bySize && p.n in bySize && p.m < p.n {
        var ok := VerifyConsistency(hs, p.m, p.n, bySize[p.m].root, bySize[p.n].root, p.proof);
        if !ok {
          return Some(k);
        }
      }
    }
    bad := None;
  }

  predicate Accepted(hs: Hasher, bySize: map<nat, Checkpoint>, p: Supplied) {
    p.m in bySize && p.n in bySize && p.m < p.n ==>
      AcceptsConsistency(hs, p.m, p.n, bySize[p.m].root, bySize[p.n].root, p.proof)
  }

  lemma AllAccepted(hs: Hasher, sc: Scheme, pk: PublicKey, cps: seq<Checkpoint>, proofs: seq<Supplied>,
                    bySize: map<nat, Checkpoint>)
    requires Indexed(sc, pk, cps, |cps|, bySize)
    requires forall k :: 0 <= k < |proofs| ==> Accepted(hs, bySize, proofs[k])
    ensures ProofsAccepted(hs, sc, pk, cps, proofs)
  {
  }

  lemma {:induction false} NotAccepted(hs: Hasher, sc: Scheme, pk: PublicKey, cps: seq<Checkpoint>, proofs: seq<Supplied>,
                    bySize: map<nat, Checkpoint>, k: nat)
    requires Indexed(sc, pk, cps, |cps|, bySize) && k < |proofs| && !Accepted(hs, bySize, proofs[k])
    ensures !ProofsAccepted(hs, sc, pk, cps, proofs)
    ensures var p := proofs[k];
      Genuine(hs, sc, pk, cps, proofs, Rewritten(p.n, bySize[p.m], bySize[p.n]))
  {
    var p := proofs[k];
    var i :| 0 <= i < |cps| && cps[i] == bySize[p.m];
    var j :| 0 <= j < |cps| && cps[j] == bySize[p.n];
    assert !PairAccepted(hs, sc, pk, cps[i], cps[j], p);
  }

  // ---- split views are detected --------------------------------------------

  /** The head is over exactly these leaves. */
  predicate Over(hs: Hasher, cp: Checkpoint, leaves: seq<Digest>) {
    cp.treeSize == |leaves| && cp.root == TreeHash(hs, leaves)
  }

  /** Two published heads over different logs of one size are found, or there is a collision. */
  lemma {:induction false} SplitViewDetected(hs: Hasher, sc: Scheme, pk: PublicKey, cps: seq<Checkpoint>, i: nat, j: nat,
                                             a: seq<Digest>, b: seq<Digest>)
    returns (c: Option<Collision>)
    requires i < |cps| && j < |cps| && Verified(sc, cps[i], pk) && Verified(sc, cps[j], pk)
    requires Over(hs, cps[i], a) && Over(hs, cps[j], b) && |a| == |b| && a != b
    ensures c.Some? ==> IsCollision(hs, c.value)
    ensures c.None? ==> HasFork(sc, pk, cps)
  {
    c := None;
    if TreeHash(hs, a) == TreeHash(hs, b) {
      c := RootCollision(hs, a, b);
    } else {
      assert Conflict(sc, pk, cps[i], cps[j]);
    }
  }

  /** A log that was rewritten is found by any proof supplied between two of its heads, or there is a collision. */
  lemma {:induction false} RewriteDetected(hs: Hasher, sc: Scheme, pk: PublicKey, cps: seq<Checkpoint>,
                                           proofs: seq<Supplied>, i: nat, j: nat, k: nat, a: seq<Digest>, b: seq<Digest>)
    returns (c: Option<Collision>)
    requires i < |cps| && j < |cps| && Verified(sc, cps[i], pk) && Verified(sc, cps[j], pk)
    requires Over(hs, cps[i], a) && Over(hs, cps[j], b) && |a| < |b| && !(a <= b)
    requires k < |proofs| && proofs[k].m == |a| && proofs[k].n == |b|
    ensures c.Some? ==> IsCollision(hs, c.value)
    ensures c.None? ==> !ProofsAccepted(hs, sc, pk, cps, proofs)
  {
    c := None;
    if AcceptsConsistency(hs, |a|, |b|, TreeHash(hs, a), TreeHash(hs, b), proofs[k].proof) {
      c := PrefixCollision(hs, a, b, proofs[k].proof);
    } else {
      assert !PairAccepted(hs, sc, pk, cps[i], cps[j], proofs[k]);
    }
  }
}
