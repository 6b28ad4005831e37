/**
 Signed tree heads. The signature scheme is a parameter; what is signed is the
 canonical form of the head, which determines every field of it.
 */
module Signing {
  import opened Prelude
  import opened Merkle
  import opened Json
  import opened Canonical
  import opened CanonicalParser

  type Key = Bytes
  type PublicKey = Bytes

  datatype Scheme = Scheme(
    publicKey: Key -> PublicKey,
    keyId: PublicKey -> string,
    sign: (Key, Bytes) -> Bytes,
    verify: (PublicKey, Bytes, Bytes) -> bool)

  /** An honestly made signature verifies. */
  ghost predicate Correct(sc: Scheme) {
    forall k: Key, data: Bytes :: sc.verify(sc.publicKey(k), sc.sign(k, data), data)
  }

  function Hex(d: Bytes): string {
    if d == [] then []
    else [HexDigit(d[0] as nat / 16), HexDigit(d[0] as nat % 16)] + Hex(d[1..])
  }

  lemma {:induction false} HexInjective(a: Bytes, b: Bytes)
    requires Hex(a) == Hex(b)
    ensures a == b
    decreases |a|
  {
    if a == [] || b == [] {
      return;
    }
    var x, y := Hex(a), Hex(b);
    assert x[0] == y[0] && x[1] == y[1];
    HexDigitInjective(a[0] as nat / 16, b[0] as nat / 16);
    HexDigitInjective(a[0] as nat % 16, b[0] as nat % 16);
    assert x[2..] == Hex(a[1..]) && y[2..] == Hex(b[1..]);
    HexInjective(a[1..], b[1..]);
    assert a == [a[0]] + a[1..] && b == [b[0]] + b[1..];
  }

  lemma {:induction false} HexDigitInjective(n: nat, m: nat)
    requires n < 16 && m < 16 && HexDigit(n) == HexDigit(m)
    ensures n == m
  {
    assert HexValue(HexDigit(n)) == n && HexValue(HexDigit(m)) == m;
  }

  datatype Checkpoint = Checkpoint(
    origin: string,
    treeSize: nat,
    root: Digest,
    timestamp: string,
    publicKeyId: string,
    signature: Bytes)

  function SigningObject(origin: string, treeSize: nat, root: Digest, timestamp: string): (v: Value)
    ensures IsClean(v) && v.Obj?
    ensures "origin" in v.members && v.members["origin"] == Str(origin)
    ensures "root_hash" in v.members && v.members["root_hash"] == Str(Hex(root))
    ensures "timestamp" in v.members && v.members["timestamp"] == Str(timestamp)
    ensures "tree_size" in v.members && v.members["tree_size"] == Int(treeSize)
  {
    Obj(map["origin" := Str(origin), "root_hash" := Str(Hex(root)), "timestamp" := Str(timestamp),
            "tree_size" := Int(treeSize)])
  }

  /** The exact bytes that a head signs. */
  function SigningBytes(origin: string, treeSize: nat, root: Digest, timestamp: string): Bytes {
    var v := SigningObject(origin, treeSize, root, timestamp);
    CleanIsFixed(v);
    CanonicalBytes(v).value
  }

  lemma CleanBytesBind(x: Value, y: Value)
    requires IsClean(x) && IsClean(y) && CanonicalBytes(x) == CanonicalBytes(y)
    ensures x == y
  {
    CleanIsFixed(x);
    CleanIsFixed(y);
    CanonicalBytesExact(x, y);
  }

  /** One signature cannot stand for two different heads: the signed bytes determine the four fields. */
  lemma SigningBytesBind(a: Checkpoint, b: Checkpoint)
    requires SigningBytes(a.origin, a.treeSize, a.root, a.timestamp)
          == SigningBytes(b.origin, b.treeSize, b.root, b.timestamp)
    ensures a.origin == b.origin && a.treeSize == b.treeSize && a.root == b.root && a.timestamp == b.timestamp
  {
    var x := SigningObject(a.origin, a.treeSize, a.root, a.timestamp);
    var y := SigningObject(b.origin, b.treeSize, b.root, b.timestamp);
    CleanIsFixed(x);
    CleanIsFixed(y);
    CleanBytesBind(x, y);
    HexInjective(a.root, b.root);
  }

  /** The head is validly signed by the holder of the key. */
  predicate Verified(sc: Scheme, cp: Checkpoint, pk: PublicKey) {
    && sc.keyId(pk) == cp.publicKeyId
    && sc.verify(pk, cp.signature, SigningBytes(cp.origin, cp.treeSize, cp.root, cp.timestamp))
  }

  function SignCheckpoint(sc: Scheme, key: Key, origin: string, treeSize: nat, root: Digest, timestamp: string)
    : (cp: Checkpoint)
    ensures cp.treeSize == treeSize && cp.root == root && cp.origin == origin && cp.timestamp == timestamp
    ensures Correct(sc) ==> Verified(sc, cp, sc.publicKey(key))
  {
    Checkpoint(origin, treeSize, root, timestamp, sc.keyId(sc.publicKey(key)),
               sc.sign(key, SigningBytes(origin, treeSize, root, timestamp)))
  }
}
