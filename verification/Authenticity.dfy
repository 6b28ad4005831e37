/**
 Who signed what. If a key verifies only what its holder signed, then every
 head, cosignature, accusation and report that is accepted under the key goes
 back to its holder. What else a valid report establishes is here too.
 */
module Authenticity {
  import opened Prelude
  import opened Merkle
  import opened MerkleProofs
  import opened Crosswalk
  import opened Signing
  import opened Witness
  import opened Anchor
  import opened Ledger
  import opened Report
  import opened DeepVerify

  function HeadBytes(cp: Checkpoint): Bytes {
    SigningBytes(cp.origin, cp.treeSize, cp.root, cp.timestamp)
  }

  /** The four fields that a signature covers. */
  predicate SameHead(a: Checkpoint, b: Checkpoint) {
    a.origin == b.origin && a.treeSize == b.treeSize && a.root == b.root && a.timestamp == b.timestamp
  }

  /** Under the key only these byte strings verify. */
  ghost predicate SignsOnly(sc: Scheme, pk: PublicKey, made: iset<Bytes>) {
    forall sig: Bytes, data: Bytes :: sc.verify(pk, sig, data) ==> data in made
  }

  ghost predicate IdsTellKeysApart(sc: Scheme) {
    forall a: PublicKey, b: PublicKey :: sc.keyId(a) == sc.keyId(b) ==> a == b
  }

  // ---- heads ---------------------------------------------------------------

  /** The bytes of these heads. */
  ghost function BytesOf(heads: iset<Checkpoint>): iset<Bytes> {
    iset h | h in heads :: HeadBytes(h)
  }

  /** A head whose signing bytes were signed is, in its four fields, one of the signed heads. */
  lemma {:induction false} HeadBytesSigned(heads: iset<Checkpoint>, cp: Checkpoint) returns (h: Checkpoint)
    requires HeadBytes(cp) in BytesOf(heads)
    ensures h in heads && SameHead(h, cp)
  {
    h :| h in heads && HeadBytes(h) == HeadBytes(cp);
    SigningBytesBind(h, cp);
  }

  /** A verified head is one that the key holder signed. */
  lemma {:induction false} HeadWasSigned(sc: Scheme, pk: PublicKey, heads: iset<Checkpoint>, cp: Checkpoint)
    returns (h: Checkpoint)
    requires SignsOnly(sc, pk, BytesOf(heads)) && Verified(sc, cp, pk)
    ensures h in heads && SameHead(h, cp)
  {
    h := HeadBytesSigned(heads, cp);
  }

  /** A head verifies under one key at most. */
  lemma {:induction false} OneKeyPerHead(sc: Scheme, a: PublicKey, b: PublicKey, cp: Checkpoint)
    requires IdsTellKeysApart(sc) && Verified(sc, cp, a) && Verified(sc, cp, b)
    ensures a == b
  {
  }

  /** A witness endorses only heads that the producer signed. */
  method CosignSigned(w: WitnessState, cp: Checkpoint, producer: PublicKey, proof: Option<seq<Digest>>,
                      ghost heads: iset<Checkpoint>)
    returns (r: Outcome, ghost h: Checkpoint)
    requires w.Valid() && SignsOnly(w.sc, producer, BytesOf(heads))
    modifies w
    ensures w.Valid() && (r.Endorsed? ==> h in heads && SameHead(h, cp))
  {
    r := w.Cosign(cp, producer, proof);
    h := cp;
    if r.Endorsed? {
      h := HeadWasSigned(w.sc, producer, heads, cp);
    }
  }

  /** A cosignature that verifies for a head is one of the witness, for a head with the same four fields. */
  lemma {:induction false} CosignatureWasMade(sc: Scheme, witnessKey: PublicKey, endorsed: iset<Checkpoint>,
                                              cp: Checkpoint, cosig: Cosignature)
    returns (h: Checkpoint)
    requires SignsOnly(sc, witnessKey, BytesOf(endorsed)) && CosignatureVerified(sc, cp, cosig, witnessKey)
    ensures h in endorsed && SameHead(h, cp) && cosig.treeSize == h.treeSize && cosig.root == h.root
    ensures cosig.witnessKeyId == sc.keyId(witnessKey)
  {
    h := HeadBytesSigned(endorsed, cp);
  }

  /** Heads accepted as consistent were both signed, and nothing is accepted without a trusted key. */
  lemma {:induction false} BetweenWereSigned(hs: Hasher, sc: Scheme, older: Checkpoint, newer: Checkpoint,
                                             proof: seq<Digest>, trusted: Option<PublicKey>, heads: iset<Checkpoint>)
    returns (a: Checkpoint, b: Checkpoint)
    requires AcceptsBetween(hs, sc, older, newer, proof, trusted)
    requires trusted.Some? ==> SignsOnly(sc, trusted.value, BytesOf(heads))
    ensures trusted.Some? && a in heads && b in heads && SameHead(a, older) && SameHead(b, newer)
  {
    a := HeadWasSigned(sc, trusted.value, heads, older);
    b := HeadWasSigned(sc, trusted.value, heads, newer);
  }

  /** Some supplied proof between the sizes of the two heads is not accepted. */
  predicate HasRejected(hs: Hasher, proofs: seq<Supplied>, a: Checkpoint, b: Checkpoint) {
    exists k :: 0 <= k < |proofs| && proofs[k].m == a.treeSize && proofs[k].n == b.treeSize
                && !AcceptsConsistency(hs, a.treeSize, b.treeSize, a.root, b.root, proofs[k].proof)
  }

  /**
   No producer is framed: behind genuine evidence of a split view are two
   published heads that the key holder signed, with different roots for one
   size or with a supplied proof between their sizes that is not accepted.
   */
  lemma {:induction false} AccusedSignedBoth(hs: Hasher, sc: Scheme, pk: PublicKey, cps: seq<Checkpoint>,
                                             proofs: seq<Supplied>, e: Equivocation, heads: iset<Checkpoint>)
    returns (a: Checkpoint, b: Checkpoint)
    requires Genuine(hs, sc, pk, cps, proofs, e) && SignsOnly(sc, pk, BytesOf(heads))
    ensures a in heads && b in heads && SameHead(a, e.a) && SameHead(b, e.b) && b.treeSize == e.treeSize
    ensures e.Fork? ==> a.treeSize == b.treeSize && a.root != b.root
    ensures e.Rewritten? ==> a.treeSize < b.treeSize && HasRejected(hs, proofs, a, b)
  {
    a := HeadWasSigned(sc, pk, heads, e.a);
    b := HeadWasSigned(sc, pk, heads, e.b);
  }

  // ---- reports -------------------------------------------------------------

  /** The key holder signed these reports and these heads, and nothing else. */
  ghost predicate Signs(env: Env, pk: PublicKey, reports: iset<Unsigned>, heads: iset<Checkpoint>) {
    SignsOnly(env.sc, pk, (iset c | c in reports :: env.payload(c)) + BytesOf(heads))
  }

  /** The signed form of a report determines it, and is never that of a head. */
  ghost predicate PayloadBinds(env: Env) {
    && (forall c: Unsigned, d: Unsigned :: env.payload(c) == env.payload(d) ==> c == d)
    && (forall c: Unsigned, cp: Checkpoint :: env.payload(c) != HeadBytes(cp))
  }

  /** A report accepted under a key is one that its holder signed, over a head that its holder signed. */
  lemma {:induction false} ReportWasSigned(env: Env, r: SignedReport, pk: PublicKey, reports: iset<Unsigned>,
                                           heads: iset<Checkpoint>)
    returns (h: Checkpoint)
    requires Signs(env, pk, reports, heads) && PayloadBinds(env)
    requires !Unserializable(env, r.content.items) && Valid(env, r, Some(pk))
    ensures r.content in reports
    ensures h in heads && SameHead(h, r.content.checkpoint)
  {
    var cp := r.content.checkpoint;
    assert env.sc.verify(pk, r.signature, env.payload(r.content));
    assert env.sc.verify(pk, cp.signature, HeadBytes(cp));
    h := HeadBytesSigned(heads, cp);
  }

  /** So no change to a signed report is accepted, unless the result was signed too. */
  lemma {:induction false} TamperedIsInvalid(env: Env, r: SignedReport, pk: PublicKey, reports: iset<Unsigned>,
                                             heads: iset<Checkpoint>, changed: Unsigned, sig: Bytes)
    requires Signs(env, pk, reports, heads) && PayloadBinds(env)
    requires changed !in reports && !Unserializable(env, changed.items)
    ensures !Valid(env, r.(content := changed, signature := sig), Some(pk))
  {
    if Valid(env, r.(content := changed, signature := sig), Some(pk)) {
      var h := ReportWasSigned(env, r.(content := changed, signature := sig), pk, reports, heads);
    }
  }

  /** A report that names its key in any of three places is accepted under one trusted key at most. */
  lemma {:induction false} OneTrustedKey(env: Env, r: SignedReport, a: PublicKey, b: PublicKey)
    requires IdsTellKeysApart(env.sc) && !Unserializable(env, r.content.items)
    requires Valid(env, r, Some(a)) && Valid(env, r, Some(b))
    requires r.content.publicKey.Some? || r.publicKeyId != "" || r.content.checkpoint.publicKeyId != ""
    ensures a == b
  {
  }

  // ---- what is disclosed ---------------------------------------------------

  /** The leaf that an item discloses for its index. */
  ghost predicate Tells(env: Env, items: seq<Item>, i: int, leaf: Digest) {
    exists k :: 0 <= k < |items| && items[k].leafIndex == i && items[k].leafHash == Some(leaf)
                && env.leafOf(items[k].event.body) == Some(leaf)
  }

  lemma {:induction false} ByIndexTells(env: Env, items: seq<Item>, cp: Checkpoint, n: nat, i: int)
    requires n <= |items| && !Unserializable(env, items) && i in ByIndex(env, items, n)
    requires forall k :: 0 <= k < |items| ==> ItemOk(env, items[k], cp)
    ensures Tells(env, items, i, ByIndex(env, items, n)[i])
    decreases n
  {
    if items[n - 1].leafIndex == i {
      assert ItemOk(env, items[n - 1], cp);
    } else {
      ByIndexTells(env, items, cp, n - 1, i);
    }
  }

  /**
   A valid report that discloses every index exhibits a log with the signed
   head, of leaves that its items tell; over an empty head, one with the empty
   root. No assumption on the hash is needed.
   */
  lemma {:induction false} FullDisclosureExhibitsLog(env: Env, r: SignedReport, trusted: Option<PublicKey>)
    returns (leaves: seq<Digest>)
    requires !Unserializable(env, r.content.items) && Valid(env, r, trusted)
    requires FullDisclosure(ByIndex(env, r.content.items, |r.content.items|), r.content.checkpoint.treeSize)
    ensures |leaves| == r.content.checkpoint.treeSize && HeadOf(env.hs, r.content.checkpoint, leaves)
    ensures forall i :: 0 <= i < |leaves| ==> Tells(env, r.content.items, i, leaves[i])
    ensures r.content.checkpoint.treeSize == 0 ==> r.content.items == [] && r.content.checkpoint.root == env.hs.empty
  {
    var c := r.content;
    leaves := InOrder(ByIndex(env, c.items, |c.items|), c.checkpoint.treeSize);
    assert leaves[..c.checkpoint.treeSize] == leaves;
    forall i | 0 <= i < |leaves| ensures Tells(env, c.items, i, leaves[i]) {
      ByIndexTells(env, c.items, c.checkpoint, |c.items|, i);
    }
    assert c.items != [] ==> ItemOk(env, c.items[0], c.checkpoint);
  }

  /**
   Every event that a valid report cites is disclosed in it, with the stored
   hash of its content, and is at its index in the log, or there is a collision.
   */
  lemma {:induction false} CitedEventIsLogged(env: Env, r: SignedReport, trusted: Option<PublicKey>,
                                              leaves: seq<Digest>, i: nat, j: nat)
    returns (k: nat, col: Option<Collision>)
    requires !Unserializable(env, r.content.items) && Valid(env, r, trusted)
    requires |leaves| == r.content.checkpoint.treeSize && TreeHash(env.hs, leaves) == r.content.checkpoint.root
    requires i < |r.content.lines| && j < |r.content.lines[i].evidence|
    ensures k < |r.content.items| && EventId(r.content.items[k].event) == r.content.lines[i].evidence[j]
    ensures col.Some? ==> IsCollision(env.hs, col.value)
    ensures col.None? ==> var item := r.content.items[k];
      0 <= item.leafIndex < |leaves|
      && env.leafOf(item.event.body) == item.leafHash == Some(leaves[item.leafIndex])
  {
    var c := r.content;
    assert Disclosed(c, c.lines[i].evidence[j]);
    k :| 0 <= k < |c.items| && EventId(c.items[k].event) == c.lines[i].evidence[j];
    assert ItemOk(env, c.items[k], c.checkpoint);
    col := ItemCollision(env, c.items[k], c.checkpoint, leaves);
  }

  // ---- pinned crosswalks ---------------------------------------------------

  /** If the hash tells crosswalks apart, a report is pinned to one crosswalk at most, and to none without a hash. */
  lemma {:induction false} OnePinnedCrosswalk(env: Env, c: Unsigned, a: seq<Control>, b: seq<Control>)
    requires forall x: seq<Control>, y: seq<Control> :: env.crosswalkHash(x) == env.crosswalkHash(y) ==> x == y
    requires Pinned(env, c, a) && Pinned(env, c, b)
    ensures a == b && c.crosswalkHash != ""
  {
  }
}
