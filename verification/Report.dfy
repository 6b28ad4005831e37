/**
 Verifying an attestation report. What a verified report discloses is what the
 log committed to, unless it yields a hash collision.
 */
module Report {
  import opened Prelude
  import opened Merkle
  import opened MerkleProofs
  import opened HashBytes
  import opened Json
  import opened Canonical
  import opened CanonicalParser
  import opened PyValue
  import opened Crosswalk
  import opened Signing
  import opened Ledger

  /** One disclosed event. */
  datatype Item = Item(event: Event, leafIndex: int, leafHash: Option<Digest>, proof: seq<Digest>)

  /** One reported control. */
  datatype Line = Line(controlId: string, status: Status, evidence: seq<Value>)

  /** Everything in a report that its signature covers and that verification reads. */
  datatype Unsigned = Unsigned(
    checkpoint: Checkpoint,
    items: seq<Item>,
    lines: seq<Line>,
    crosswalkHash: string,
    publicKey: Option<PublicKey>)

  datatype SignedReport = SignedReport(content: Unsigned, publicKeyId: string, signature: Bytes)

  /**
   The parameters: hashes, the leaf of an event's content, signatures, the
   signed form of a report and the hash of a crosswalk. Verification is
   independent of how a leaf is made; `Coherent` ties it to the ledger's.
   */
  datatype Env = Env(
    hs: Hasher,
    leafOf: Value -> Option<Digest>,
    sc: Scheme,
    payload: Unsigned -> Bytes,
    crosswalkHash: seq<Control> -> string)

  /** Leaves are computed as the ledger computes them. */
  ghost predicate Coherent(env: Env) {
    forall body: Value :: env.leafOf(body) == LeafOf(env.hs, body)
  }

  // ---- the checks ----------------------------------------------------------

  function EventId(e: Event): Value {
    GetPath(e.body, ["event_id"])
  }

  /** The disclosed leaf is the stored one and its proof leads to the signed root. */
  predicate ItemOk(env: Env, item: Item, cp: Checkpoint) {
    var leaf := env.leafOf(item.event.body);
    && leaf.Some? && leaf == item.leafHash
    && AcceptsInclusion(env.hs, item.leafIndex, cp.treeSize, leaf.value, item.proof, cp.root)
  }

  /** Serializing some disclosed event raises an error. */
  predicate Unserializable(env: Env, items: seq<Item>) {
    exists i :: 0 <= i < |items| && env.leafOf(items[i].event.body).None?
  }

  /** The leaves of the first `n` items by index; a later item replaces an earlier one. */
  function ByIndex(env: Env, items: seq<Item>, n: nat): map<int, Digest>
    requires n <= |items| && !Unserializable(env, items)
  {
    if n == 0 then map[]
    else
      assert env.leafOf(items[n - 1].event.body).Some?;
      ByIndex(env, items, n - 1)[items[n - 1].leafIndex := env.leafOf(items[n - 1].event.body).value]
  }

  /** Exactly the indices of the tree are disclosed. */
  predicate FullDisclosure(m: map<int, Digest>, size: nat) {
    |m| == size && forall i :: 0 <= i < size ==> i in m
  }

  function InOrder(m: map<int, Digest>, size: nat): seq<Digest>
    requires forall i :: 0 <= i < size ==> i in m
  {
    seq(size, i requires 0 <= i < size => m[i])
  }

  predicate EvidencePresent(r: Unsigned) {
    forall i, j :: 0 <= i < |r.lines| && 0 <= j < |r.lines[i].evidence| ==> Disclosed(r, r.lines[i].evidence[j])
  }

  predicate Disclosed(r: Unsigned, id: Value) {
    exists k :: 0 <= k < |r.items| && EventId(r.items[k].event) == id
  }

  /** The key that verification uses: the trusted one, else the embedded one. */
  function UsedKey(r: Unsigned, trusted: Option<PublicKey>): Option<PublicKey> {
    if trusted.Some? then trusted else r.publicKey
  }

  /** Every shallow check passes. */
  predicate Valid(env: Env, r: SignedReport, trusted: Option<PublicKey>)
    requires !Unserializable(env, r.content.items)
  {
    var c := r.content;
    && Signed(env, r, trusted)
    && (forall i :: 0 <= i < |c.items| ==> ItemOk(env, c.items[i], c.checkpoint))
    && TreeOk(env, c)
    && EvidencePresent(c)
  }

  /** There is a key, the trusted one if there is one, and both signatures are made with it. */
  predicate Signed(env: Env, r: SignedReport, trusted: Option<PublicKey>) {
    var pk := UsedKey(r.content, trusted);
    && pk.Some?
    && (trusted.Some? && r.content.publicKey.Some? ==> r.content.publicKey == trusted)
    && env.sc.verify(pk.value, r.signature, env.payload(r.content))
    && (r.publicKeyId != "" ==> r.publicKeyId == env.sc.keyId(pk.value))
    && SignatureOk(env, r.content.checkpoint, pk.value)
  }

  /** The head's signature, with its key identifier checked only when there is one. */
  predicate SignatureOk(env: Env, cp: Checkpoint, pk: PublicKey) {
    && env.sc.verify(pk, cp.signature, SigningBytes(cp.origin, cp.treeSize, cp.root, cp.timestamp))
    && (cp.publicKeyId != "" ==> cp.publicKeyId == env.sc.keyId(pk))
  }

  /** If all leaves are disclosed, they hash to the signed root. */
  predicate TreeOk(env: Env, c: Unsigned)
    requires !Unserializable(env, c.items)
  {
    var m := ByIndex(env, c.items, |c.items|);
    FullDisclosure(m, c.checkpoint.treeSize) ==> TreeHash(env.hs, InOrder(m, c.checkpoint.treeSize)) == c.checkpoint.root
  }

  // ---- the verifier --------------------------------------------------------

  /** Shallow verification; `None` where serializing a disclosed event raises an error. */
  method VerifyReport(env: Env, r: SignedReport, trusted: Option<PublicKey>) returns (valid: Option<bool>)
    ensures valid.None? ==> Unserializable(env, r.content.items)
    ensures valid.Some? && UsedKey(r.content, trusted).Some? ==> !Unserializable(env, r.content.items)
    ensures valid.Some? && !Unserializable(env, r.content.items) ==> valid.value == Valid(env, r, trusted)
    ensures UsedKey(r.content, trusted).None? ==> valid == Some(false)
  {
    var c := r.content;
    var pk := UsedKey(c, trusted);
    if pk.None? {
      return Some(false);
    }
    var ok := CheckSignatures(env, r, trusted, pk.value);
    var items := CheckItems(env, c);
    if items.None? {
      return None;
    }
    var (itemsOk, byIndex, presentIds) := items.value;
    var size := c.checkpoint.treeSize;
    var treeOk := true;
    if |byIndex| == size && forall i :: 0 <= i < size ==> i in byIndex {
      treeOk := TreeHash(env.hs, InOrder(byIndex, size)) == c.checkpoint.root;
    }
    var evidenceOk := CheckEvidence(c, presentIds);
    valid := Some(ok && itemsOk && treeOk && evidenceOk);
  }

  method CheckSignatures(env: Env, r: SignedReport, trusted: Option<PublicKey>, pk: PublicKey) returns (ok: bool)
    requires UsedKey(r.content, trusted) == Some(pk)
    ensures ok == Signed(env, r, trusted)
  {
    var c := r.content;
    ok := !(trusted.Some? && c.publicKey.Some? && c.publicKey != trusted);
    if !env.sc.verify(pk, r.signature, env.payload(c)) {
      ok := false;
    }
    if r.publicKeyId != "" && r.publicKeyId != env.sc.keyId(pk) {
      ok := false;
    }
    if !SignatureOk(env, c.checkpoint, pk) {
      ok := false;
    }
  }

  /** The identifiers of the first `n` disclosed events. */
  function IdsUpTo(items: seq<Item>, n: nat): set<Value>
    requires n <= |items|
  {
    set k | 0 <= k < n :: EventId(items[k].event)
  }

  lemma IdsNext(items: seq<Item>, n: nat)
    requires n < |items|
    ensures IdsUpTo(items, n + 1) == IdsUpTo(items, n) + {EventId(items[n].event)}
  {
  }

  /** The loop over disclosed events. */
  method CheckItems(env: Env, c: Unsigned) returns (r: Option<(bool, map<int, Digest>, set<Value>)>)
    ensures r.None? <==> Unserializable(env, c.items)
    ensures r.Some? ==>
      && r.value.0 == (forall i :: 0 <= i < |c.items| ==> ItemOk(env, c.items[i], c.checkpoint))
      && r.value.1 == ByIndex(env, c.items, |c.items|)
      && r.value.2 == IdsUpTo(c.items, |c.items|)
  {
    var ok := true;
    var byIndex: map<int, Digest> := map[];
    var presentIds: set<Value> := {};
    for n := 0 to |c.items|
      invariant SerializableUpTo(env, c.items, n)
      invariant ok == OkUpTo(env, c, n)
      invariant !Unserializable(env, c.items) ==> byIndex == ByIndex(env, c.items, n)
      invariant presentIds == IdsUpTo(c.items, n)
    {
      var item := c.items[n];
      IdsNext(c.items, n);
      presentIds := presentIds + {EventId(item.event)};
      var leaf, itemOk := CheckItem(env, item, c.checkpoint);
      if leaf.None? {
        return None;
      }
      if !itemOk {
        ok := false;
      }
      byIndex := byIndex[item.leafIndex := leaf.value];
    }
    r := Some((ok, byIndex, presentIds));
  }

  ghost predicate SerializableUpTo(env: Env, items: seq<Item>, n: nat) {
    n <= |items| && forall i :: 0 <= i < n ==> env.leafOf(items[i].event.body).Some?
  }

  ghost predicate OkUpTo(env: Env, c: Unsigned, n: nat) {
    n <= |c.items| && forall i :: 0 <= i < n ==> ItemOk(env, c.items[i], c.checkpoint)
  }

  method CheckItem(env: Env, item: Item, cp: Checkpoint) returns (leaf: Option<Digest>, ok: bool)
    ensures leaf == env.leafOf(item.event.body) && ok == ItemOk(env, item, cp)
  {
    leaf := env.leafOf(item.event.body);
    if leaf.None? {
      return leaf, false;
    }
    ok := leaf == item.leafHash;
    var included := VerifyInclusion(env.hs, item.leafIndex, cp.treeSize, leaf.value, item.proof, cp.root);
    if !included {
      ok := false;
    }
  }

  /** Every cited evidence event is among the disclosed ones. */
  method CheckEvidence(c: Unsigned, presentIds: set<Value>) returns (ok: bool)
    requires presentIds == IdsUpTo(c.items, |c.items|)
    ensures ok == EvidencePresent(c)
  {
    ok := true;
    assert forall id :: id in presentIds <==> Disclosed(c, id);
    for i := 0 to |c.lines|
      invariant ok == (forall i', j :: 0 <= i' < i && 0 <= j < |c.lines[i'].evidence| ==>
                        Disclosed(c, c.lines[i'].evidence[j]))
    {
      var evidence := c.lines[i].evidence;
      for j := 0 to |evidence|
        invariant ok == ((forall i', j' :: 0 <= i' < i && 0 <= j' < |c.lines[i'].evidence| ==>
                           Disclosed(c, c.lines[i'].evidence[j'])) &&
                         (forall j' :: 0 <= j' < j ==> Disclosed(c, evidence[j'])))
      {
        if evidence[j] !in presentIds {
          ok := false;
        }
      }
    }
  }

  // ---- what a valid report proves ------------------------------------------

  /**
   From the disclosed events of a valid report and a leaf list with the signed
   root, compute a node collision. Finding none means that every disclosed
   event hashes to the leaf at its index.
   */
  function DisclosureCollision(env: Env, c: Unsigned, leaves: seq<Digest>, n: nat): (col: Option<Collision>)
    requires |leaves| == c.checkpoint.treeSize && TreeHash(env.hs, leaves) == c.checkpoint.root
    requires OkUpTo(env, c, n)
    ensures col.Some? ==> IsCollision(env.hs, col.value)
    ensures col.None? ==> AtTheirIndices(env, c.items, leaves, n)
  {
    if n == 0 then None
    else
      var before := DisclosureCollision(env, c, leaves, n - 1);
      if before.Some? then before
      else
        assert ItemOk(env, c.items[n - 1], c.checkpoint);
        ItemCollision(env, c.items[n - 1], c.checkpoint, leaves)
  }

  /** Each of the first `n` disclosed events hashes to the leaf at its index. */
  ghost predicate AtTheirIndices(env: Env, items: seq<Item>, leaves: seq<Digest>, n: nat) {
    n <= |items| && (n == 0 || (AtTheirIndices(env, items, leaves, n - 1) && AtItsIndex(env, items[n - 1], leaves)))
  }

  lemma {:induction false} EachAtItsIndex(env: Env, items: seq<Item>, leaves: seq<Digest>, n: nat, i: nat)
    requires AtTheirIndices(env, items, leaves, n) && i < n
    ensures AtItsIndex(env, items[i], leaves)
    decreases n
  {
    if i < n - 1 {
      EachAtItsIndex(env, items, leaves, n - 1, i);
    }
  }

  function ItemCollision(env: Env, item: Item, cp: Checkpoint, leaves: seq<Digest>): (col: Option<Collision>)
    requires |leaves| == cp.treeSize && TreeHash(env.hs, leaves) == cp.root && ItemOk(env, item, cp)
    ensures col.Some? ==> IsCollision(env.hs, col.value)
    ensures col.None? ==> AtItsIndex(env, item, leaves)
  {
    InclusionCollision(env.hs, leaves, item.leafIndex, env.leafOf(item.event.body).value, item.proof)
  }

  /** In terms of the byte hash: a disclosed event is at its index, or two byte strings with one hash are at hand. */
  lemma {:induction false} ItemSound(env: Env, h: Bytes -> Digest, width: nat, item: Item, cp: Checkpoint,
                                     leaves: seq<Digest>)
    returns (x: Bytes, y: Bytes)
    requires Coherent(env) && BuiltFrom(env.hs, h, width) && AllWide(leaves, width)
    requires |leaves| == cp.treeSize && TreeHash(env.hs, leaves) == cp.root && ItemOk(env, item, cp)
    ensures AtItsIndex(env, item, leaves) || IsByteCollision(h, x, y)
  {
    var leaf := env.leafOf(item.event.body);
    assert leaf == LeafOf(env.hs, item.event.body);
    assert |leaf.value| == width;
    x, y := InclusionSound(env.hs, h, width, leaves, item.leafIndex, leaf.value, item.proof);
  }

  /** The event's leaf is the one of the log at the claimed index. */
  predicate AtItsIndex(env: Env, item: Item, leaves: seq<Digest>) {
    0 <= item.leafIndex < |leaves| && env.leafOf(item.event.body) == Some(leaves[item.leafIndex])
  }

  /** Then items that claim the same index disclose the same leaf, and full disclosure is the log in order. */
  lemma DisclosureIsTheLog(env: Env, c: Unsigned, leaves: seq<Digest>)
    requires !Unserializable(env, c.items) && |leaves| == c.checkpoint.treeSize
    requires AtTheirIndices(env, c.items, leaves, |c.items|)
    ensures forall i, j :: 0 <= i < |c.items| && 0 <= j < |c.items| && c.items[i].leafIndex == c.items[j].leafIndex ==>
      env.leafOf(c.items[i].event.body) == env.leafOf(c.items[j].event.body)
    ensures var m := ByIndex(env, c.items, |c.items|);
      FullDisclosure(m, c.checkpoint.treeSize) ==> InOrder(m, c.checkpoint.treeSize) == leaves
  {
    forall i, j | 0 <= i < |c.items| && 0 <= j < |c.items| && c.items[i].leafIndex == c.items[j].leafIndex
      ensures env.leafOf(c.items[i].event.body) == env.leafOf(c.items[j].event.body)
    {
      EachAtItsIndex(env, c.items, leaves, |c.items|, i);
      EachAtItsIndex(env, c.items, leaves, |c.items|, j);
    }
    ByIndexAgrees(env, c.items, leaves, |c.items|);
  }

  lemma {:induction false} ByIndexAgrees(env: Env, items: seq<Item>, leaves: seq<Digest>, n: nat)
    requires !Unserializable(env, items) && AtTheirIndices(env, items, leaves, n)
    ensures forall k :: k in ByIndex(env, items, n) ==> 0 <= k < |leaves| && ByIndex(env, items, n)[k] == leaves[k]
    decreases n
  {
    if n > 0 {
      ByIndexAgrees(env, items, leaves, n - 1);
    }
  }

  /** Two contents with one leaf hash: equal after cleaning, or a collision of the leaf hash. */
  lemma LeafBindsContent(hs: Hasher, a: Value, b: Value)
    requires LeafOf(hs, a).Some? && LeafOf(hs, a) == LeafOf(hs, b)
    ensures CanonicalBytes(a).Some? && CanonicalBytes(b).Some?
    ensures var x, y := CanonicalBytes(a).value, CanonicalBytes(b).value;
      Clean(a) == Clean(b) || (x != y && hs.leaf(x) == hs.leaf(y))
  {
    CanonicalBytesExact(a, b);
  }
}
