/**
 The external witness: it co-signs a producer's head only when the head
 extends the last one that it endorsed. What a run of endorsements proves
 about the log is worked out here.
 */
module Witness {
  import opened Prelude
  import opened Merkle
  import opened MerkleProofs
  import opened HashBytes
  import opened Signing

  datatype Cosignature = Cosignature(witnessKeyId: string, treeSize: nat, root: Digest, signature: Bytes)

  datatype Refusal = BadSignature | WentBackwards | NotConsistent

  datatype Outcome = Endorsed(cosig: Cosignature) | Refused(why: Refusal)

  /** One endorsement, with the consistency proof that was supplied for it. */
  datatype Step = Step(cp: Checkpoint, proof: seq<Digest>)

  /** What the witness checks before it endorses `next` after `last`. */
  predicate Extends(hs: Hasher, last: Checkpoint, next: Step) {
    && last.treeSize <= next.cp.treeSize
    && (last.treeSize < next.cp.treeSize ==>
        AcceptsConsistency(hs, last.treeSize, next.cp.treeSize, last.root, next.cp.root, next.proof))
  }

  /** A history that the witness can have endorsed. */
  predicate Chain(hs: Hasher, h: seq<Step>) {
    forall i :: 0 < i < |h| ==> Extends(hs, h[i - 1].cp, h[i])
  }

  /** Why `next` does not extend `last`, if it does not. */
  method CheckExtends(hs: Hasher, last: Checkpoint, next: Step) returns (why: Option<Refusal>)
    ensures why.None? <==> Extends(hs, last, next)
    ensures why == Some(WentBackwards) <==> next.cp.treeSize < last.treeSize
  {
    if next.cp.treeSize < last.treeSize {
      return Some(WentBackwards);
    }
    if next.cp.treeSize > last.treeSize {
      var ok := VerifyConsistency(hs, last.treeSize, next.cp.treeSize, last.root, next.cp.root, next.proof);
      if !ok {
        return Some(NotConsistent);
      }
    }
    why := None;
  }

  lemma {:induction false} ChainNext(hs: Hasher, h: seq<Step>, step: Step)
    requires Chain(hs, h) && (h != [] ==> Extends(hs, h[|h| - 1].cp, step))
    ensures Chain(hs, h + [step])
  {
  }

  class WitnessState {
    const hs: Hasher
    const sc: Scheme
    const key: Key
    var last: Option<Checkpoint>
    ghost var history: seq<Step>

    ghost predicate Valid()
      reads this
    {
      && Chain(hs, history)
      && last == if history == [] then None else Some(history[|history| - 1].cp)
    }

    constructor (hs: Hasher, sc: Scheme, key: Key)
      ensures Valid() && history == []
      ensures this.hs == hs && this.sc == sc && this.key == key
    {
      this.hs, this.sc, this.key := hs, sc, key;
      last := None;
      history := [];
    }

    method Cosign(cp: Checkpoint, producer: PublicKey, consistencyProof: Option<seq<Digest>>)
      returns (r: Outcome)
      requires Valid()
      modifies this
      ensures Valid()
      ensures var step := Step(cp, if consistencyProof.None? then [] else consistencyProof.value);
        var endorse := Verified(sc, cp, producer) && (old(last).Some? ==> Extends(hs, old(last).value, step));
        && r.Endorsed? == endorse
        && history == (if endorse then old(history) + [step] else old(history))
        && last == (if endorse then Some(cp) else old(last))
      ensures r.Endorsed? && Correct(sc) ==> CosignatureVerified(sc, cp, r.cosig, sc.publicKey(key))
    {
      if !Verified(sc, cp, producer) {
        return Refused(BadSignature);
      }
      var proof := if consistencyProof.None? then [] else consistencyProof.value;
      if last.Some? {
        var why := CheckExtends(hs, last.value, Step(cp, proof));
        if why.Some? {
          return Refused(why.value);
        }
      }
      ChainNext(hs, history, Step(cp, proof));
      var sig := sc.sign(key, SigningBytes(cp.origin, cp.treeSize, cp.root, cp.timestamp));
      last := Some(cp);
      history := history + [Step(cp, proof)];
      r := Endorsed(Cosignature(sc.keyId(sc.publicKey(key)), cp.treeSize, cp.root, sig));
    }
  }

  /** The witness endorsed this exact head. */
  predicate CosignatureVerified(sc: Scheme, cp: Checkpoint, cosig: Cosignature, witnessKey: PublicKey) {
    && sc.keyId(witnessKey) == cosig.witnessKeyId
    && cosig.treeSize == cp.treeSize && cosig.root == cp.root
    && sc.verify(witnessKey, cosig.signature, SigningBytes(cp.origin, cp.treeSize, cp.root, cp.timestamp))
  }

  // ---- what a chain of endorsements proves ---------------------------------

  /** The head is that of the first `treeSize` leaves. */
  predicate HeadOf(hs: Hasher, cp: Checkpoint, leaves: seq<Digest>) {
    cp.treeSize <= |leaves| && cp.root == TreeHash(hs, leaves[..cp.treeSize])
  }

  /** The proof that a log of these leaves generates between two sizes; none between an empty log and a later one. */
  function GrowthProof(hs: Hasher, leaves: seq<Digest>, m: nat): seq<Digest> {
    var p := ConsistencyProof(hs, leaves, m);
    if p.Some? then p.value else []
  }

  /** Every head of a log extends every earlier one, an empty one included. */
  lemma {:induction false} HonestExtension(hs: Hasher, leaves: seq<Digest>, older: Checkpoint, newer: Checkpoint)
    requires HeadOf(hs, older, leaves) && HeadOf(hs, newer, leaves) && older.treeSize <= newer.treeSize
    ensures Extends(hs, older, Step(newer, GrowthProof(hs, leaves[..newer.treeSize], older.treeSize)))
  {
    var pinned := leaves[..newer.treeSize];
    if older.treeSize > 0 {
      ConsistencyComplete(hs, pinned, older.treeSize);
      assert pinned[..older.treeSize] == leaves[..older.treeSize];
    }
  }

  /** Heads of one log, signed by its producer, in the order in which they were made. */
  ghost predicate HeadsInOrder(hs: Hasher, sc: Scheme, producer: PublicKey, heads: seq<Checkpoint>, leaves: seq<Digest>) {
    && (forall i :: 0 <= i < |heads| ==> HeadOf(hs, heads[i], leaves) && Verified(sc, heads[i], producer))
    && (forall i :: 0 < i < |heads| ==> heads[i - 1].treeSize <= heads[i].treeSize)
  }

  /** The first `n` heads, and no others, were endorsed in this order. */
  ghost predicate EndorsedAll(h: seq<Step>, outcomes: seq<Outcome>, heads: seq<Checkpoint>, n: nat) {
    && n == |h| == |outcomes| <= |heads|
    && forall i :: 0 <= i < n ==> outcomes[i].Endorsed? && h[i].cp == heads[i]
  }

  lemma {:induction false} EndorsedNext(h: seq<Step>, outcomes: seq<Outcome>, heads: seq<Checkpoint>, n: nat, step: Step,
                                        r: Outcome)
    requires EndorsedAll(h, outcomes, heads, n) && n < |heads| && step.cp == heads[n] && r.Endorsed?
    ensures EndorsedAll(h + [step], outcomes + [r], heads, n + 1)
  {
  }

  /** The proof for the `n`-th head from the one before makes it an extension. */
  lemma {:induction false} HonestStep(hs: Hasher, sc: Scheme, producer: PublicKey, heads: seq<Checkpoint>,
                                      leaves: seq<Digest>, n: nat, last: Option<Checkpoint>)
    requires HeadsInOrder(hs, sc, producer, heads, leaves) && n < |heads|
    requires last == if n == 0 then None else Some(heads[n - 1])
    ensures Verified(sc, heads[n], producer) && heads[n].treeSize <= |leaves|
    ensures last.Some? ==>
      Extends(hs, last.value, Step(heads[n], GrowthProof(hs, leaves[..heads[n].treeSize], last.value.treeSize)))
  {
    if n > 0 {
      HonestExtension(hs, leaves, heads[n - 1], heads[n]);
    }
  }

  /** A new witness that is shown the heads of one log, each with the proof from the one before, endorses them all. */
  method CosignHeads(w: WitnessState, producer: PublicKey, heads: seq<Checkpoint>, leaves: seq<Digest>)
    returns (outcomes: seq<Outcome>)
    requires w.Valid() && w.history == [] && HeadsInOrder(w.hs, w.sc, producer, heads, leaves)
    modifies w
    ensures w.Valid() && EndorsedAll(w.history, outcomes, heads, |heads|)
  {
    outcomes := [];
    for n := 0 to |heads|
      invariant w.Valid() && EndorsedAll(w.history, outcomes, heads, n)
    {
      HonestStep(w.hs, w.sc, producer, heads, leaves, n, w.last);
      var proof := GrowthProof(w.hs, leaves[..heads[n].treeSize], if w.last.Some? then w.last.value.treeSize else 0);
      ghost var history := w.history;
      var r := w.Cosign(heads[n], producer, Some(proof));
      EndorsedNext(history, outcomes, heads, n, Step(heads[n], proof), r);
      outcomes := outcomes + [r];
    }
  }

  /** No endorsed head of the same size as the one before it has another root, and empty heads have the empty root. */
  predicate NoFork(hs: Hasher, h: seq<Step>) {
    && (forall i :: 0 < i < |h| && h[i - 1].cp.treeSize == h[i].cp.treeSize ==> h[i - 1].cp.root == h[i].cp.root)
    && (forall i :: 0 <= i < |h| && h[i].cp.treeSize == 0 ==> h[i].cp.root == hs.empty)
  }

  /** One link of the chain: if the later head is that of `leaves`, so is the earlier one, or there is a collision. */
  function LinkCollision(hs: Hasher, earlier: Checkpoint, later: Step, leaves: seq<Digest>): (c: Option<Collision>)
    requires Extends(hs, earlier, later) && HeadOf(hs, later.cp, leaves)
    requires earlier.treeSize == later.cp.treeSize ==> earlier.root == later.cp.root
    requires earlier.treeSize == 0 ==> earlier.root == hs.empty
    ensures c.Some? ==> IsCollision(hs, c.value)
    ensures c.None? ==> HeadOf(hs, earlier, leaves)
  {
    var n := later.cp.treeSize;
    if earlier.treeSize == n || earlier.treeSize == 0 then None
    else
      assert leaves[..n][..earlier.treeSize] == leaves[..earlier.treeSize];
      ConsistencyCollision(hs, leaves[..n], earlier.treeSize, earlier.root, later.proof)
  }

  /**
   Over any run: given a leaf list whose root is the latest endorsed one, every
   endorsed head is that of a prefix of it, or a collision is computed.
   */
  function ChainCollision(hs: Hasher, h: seq<Step>, leaves: seq<Digest>): (c: Option<Collision>)
    requires Chain(hs, h) && NoFork(hs, h) && h != []
    requires HeadOf(hs, h[|h| - 1].cp, leaves)
    ensures c.Some? ==> IsCollision(hs, c.value)
    ensures c.None? ==> forall j :: 0 <= j < |h| ==> HeadOf(hs, h[j].cp, leaves)
  {
    var c := ChainCollisionFrom(hs, h, leaves, 0);
    assert c.None? ==> forall j :: 0 <= j < |h| ==> HeadOf(hs, h[j].cp, leaves) by {
      if c.None? {
        forall j | 0 <= j < |h| ensures HeadOf(hs, h[j].cp, leaves) {
          EachHead(hs, h, leaves, 0, j);
        }
      }
    }
    c
  }

  /** Every endorsed head from the `i`-th on is that of a prefix. */
  ghost predicate HeadsOn(hs: Hasher, h: seq<Step>, leaves: seq<Digest>, i: nat)
    decreases |h| - i
  {
    i >= |h| || (HeadOf(hs, h[i].cp, leaves) && HeadsOn(hs, h, leaves, i + 1))
  }

  lemma {:induction false} EachHead(hs: Hasher, h: seq<Step>, leaves: seq<Digest>, i: nat, j: nat)
    requires HeadsOn(hs, h, leaves, i) && i <= j < |h|
    ensures HeadOf(hs, h[j].cp, leaves)
    decreases j - i
  {
    if i < j {
      EachHead(hs, h, leaves, i + 1, j);
    }
  }

  function ChainCollisionFrom(hs: Hasher, h: seq<Step>, leaves: seq<Digest>, i: nat): (c: Option<Collision>)
    requires Chain(hs, h) && NoFork(hs, h) && i < |h|
    requires HeadOf(hs, h[|h| - 1].cp, leaves)
    ensures c.Some? ==> IsCollision(hs, c.value)
    ensures c.None? ==> HeadsOn(hs, h, leaves, i)
    decreases |h| - i
  {
    if i == |h| - 1 then None
    else
      var c := ChainCollisionFrom(hs, h, leaves, i + 1);
      if c.Some? then c else ChainLinkCollision(hs, h, leaves, i, i + 1)
  }

  function ChainLinkCollision(hs: Hasher, h: seq<Step>, leaves: seq<Digest>, i: nat, next: nat): (c: Option<Collision>)
    requires Chain(hs, h) && NoFork(hs, h) && next == i + 1 < |h| && HeadOf(hs, h[next].cp, leaves)
    ensures c.Some? ==> IsCollision(hs, c.value)
    ensures c.None? ==> HeadOf(hs, h[i].cp, leaves)
  {
    ChainLink(hs, h, next);
    LinkCollision(hs, h[i].cp, h[next], leaves)
  }

  lemma {:induction false} ChainLink(hs: Hasher, h: seq<Step>, i: nat)
    requires Chain(hs, h) && NoFork(hs, h) && 0 < i < |h|
    ensures Extends(hs, h[i - 1].cp, h[i])
    ensures h[i - 1].cp.treeSize == h[i].cp.treeSize ==> h[i - 1].cp.root == h[i].cp.root
    ensures h[i - 1].cp.treeSize == 0 ==> h[i - 1].cp.root == hs.empty
  {
  }

  // ---- the same down to the byte hash --------------------------------------

  /** Where the log grew, the consistency walk starts from a digest of the right width. */
  predicate LinkWide(earlier: Checkpoint, later: Step, width: nat) {
    0 < earlier.treeSize < later.cp.treeSize ==> StartsWide(earlier.treeSize, earlier.root, later.proof, width)
  }

  predicate ChainWide(h: seq<Step>, width: nat) {
    forall i :: 0 < i < |h| ==> LinkWide(h[i - 1].cp, h[i], width)
  }

  lemma {:induction false} LinkSound(hs: Hasher, hash: Bytes -> Digest, width: nat, earlier: Checkpoint, later: Step,
                                     leaves: seq<Digest>)
    returns (x: Bytes, y: Bytes)
    requires BuiltFrom(hs, hash, width) && AllWide(leaves, width) && LinkWide(earlier, later, width)
    requires Extends(hs, earlier, later) && HeadOf(hs, later.cp, leaves)
    requires earlier.treeSize == later.cp.treeSize ==> earlier.root == later.cp.root
    requires earlier.treeSize == 0 ==> earlier.root == hs.empty
    ensures HeadOf(hs, earlier, leaves) || IsByteCollision(hash, x, y)
  {
    x, y := [], [];
    var m, n := earlier.treeSize, later.cp.treeSize;
    if 0 < m < n {
      WideSlices(leaves, width, n);
      assert leaves[..n][..m] == leaves[..m];
      x, y := ConsistencySound(hs, hash, width, leaves[..n], m, earlier.root, later.proof);
    }
  }

  /**
   Over any run whose walks start wide: every endorsed head from the `i`-th on
   is that of a prefix of the leaves under the latest one, or two byte strings
   with one hash are at hand.
   */
  lemma {:induction false} ChainSound(hs: Hasher, hash: Bytes -> Digest, width: nat, h: seq<Step>,
                                      leaves: seq<Digest>, i: nat)
    returns (x: Bytes, y: Bytes)
    requires BuiltFrom(hs, hash, width) && AllWide(leaves, width) && ChainWide(h, width)
    requires Chain(hs, h) && NoFork(hs, h) && i < |h| && HeadOf(hs, h[|h| - 1].cp, leaves)
    ensures IsByteCollision(hash, x, y) || forall j :: i <= j < |h| ==> HeadOf(hs, h[j].cp, leaves)
    decreases |h| - i
  {
    x, y := [], [];
    if i < |h| - 1 {
      x, y := ChainSound(hs, hash, width, h, leaves, i + 1);
      if !IsByteCollision(hash, x, y) {
        ChainLink(hs, h, i + 1);
        assert LinkWide(h[i + 1 - 1].cp, h[i + 1], width);
        x, y := LinkSound(hs, hash, width, h[i].cp, h[i + 1], leaves);
      }
    }
  }

  /** The absence of forks is needed: whenever every endorsed head is that of a prefix, there is none. */
  lemma {:induction false} NoForkNeeded(hs: Hasher, h: seq<Step>, leaves: seq<Digest>)
    requires forall j :: 0 <= j < |h| ==> HeadOf(hs, h[j].cp, leaves)
    ensures NoFork(hs, h)
  {
    forall i | 0 <= i < |h| && h[i].cp.treeSize == 0 ensures h[i].cp.root == hs.empty {
      assert HeadOf(hs, h[i].cp, leaves);
    }
  }

  /** An equal-size head with another root is endorsed: the witness compares only sizes there. */
  lemma EqualSizeEndorsed(hs: Hasher, last: Checkpoint, next: Step)
    requires last.treeSize == next.cp.treeSize
    ensures Extends(hs, last, next)
    ensures last.root != next.cp.root ==> !NoFork(hs, [Step(last, []), next])
  {
    var h := [Step(last, []), next];
    assert h[1 - 1].cp == last && h[1].cp == next.cp;
  }
}
