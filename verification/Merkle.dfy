/**
 The Merkle tree hash and the proof generators of section 2.1 of RFC 6962,
 over already hashed leaves.
 */
module Merkle {
  import opened Prelude
  import opened Powers

  type Digest = Bytes

  /**
   The three hash functions of the log. They are parameters: nothing below
   assumes that they are injective.
   */
  datatype Hasher = Hasher(
    leaf: Bytes -> Digest,
    node: (Digest, Digest) -> Digest,
    empty: Digest)

  function TreeHash(hs: Hasher, leaves: seq<Digest>): Digest
    decreases |leaves|
  {
    if |leaves| == 0 then hs.empty
    else if |leaves| == 1 then leaves[0]
    else
      var k := Split(|leaves|);
      hs.node(TreeHash(hs, leaves[..k]), TreeHash(hs, leaves[k..]))
  }

  /** The audit path of leaf `m`, bottom first; `None` where the source raises IndexError. */
  function InclusionProof(hs: Hasher, leaves: seq<Digest>, m: int): (p: Option<seq<Digest>>)
    ensures p.Some? <==> 0 <= m < |leaves|
  {
    if 0 <= m < |leaves| then Some(AuditPath(hs, leaves, m)) else None
  }

  function AuditPath(hs: Hasher, leaves: seq<Digest>, m: nat): seq<Digest>
    requires m < |leaves|
    decreases |leaves|
  {
    if |leaves| == 1 then []
    else
      var k := Split(|leaves|);
      if m < k then AuditPath(hs, leaves[..k], m) + [TreeHash(hs, leaves[k..])]
      else AuditPath(hs, leaves[k..], m - k) + [TreeHash(hs, leaves[..k])]
  }

  /** SUBPROOF of section 2.1.2 of RFC 6962; `b` says that the old root is known to the verifier. */
  function Subproof(hs: Hasher, m: nat, leaves: seq<Digest>, b: bool): seq<Digest>
    requires 0 < m <= |leaves|
    decreases |leaves|
  {
    if m == |leaves| then if b then [] else [TreeHash(hs, leaves)]
    else
      var k := Split(|leaves|);
      if m <= k then Subproof(hs, m, leaves[..k], b) + [TreeHash(hs, leaves[k..])]
      else Subproof(hs, m - k, leaves[k..], false) + [TreeHash(hs, leaves[..k])]
  }

  /** `None` where the source raises ValueError. */
  function ConsistencyProof(hs: Hasher, leaves: seq<Digest>, m: int): (p: Option<seq<Digest>>)
    ensures p.Some? <==> 0 < m <= |leaves|
  {
    if !(0 < m <= |leaves|) then None
    else if m == |leaves| then Some([])
    else Some(Subproof(hs, m, leaves, true))
  }

  // ---- the worked example of section 2.1.3 of RFC 6962 -----------------------

  /** Trees of two and of four leaves. */
  function Two(hs: Hasher, a: Digest, b: Digest): Digest {
    hs.node(a, b)
  }

  function Four(hs: Hasher, a: Digest, b: Digest, c: Digest, d: Digest): Digest {
    hs.node(hs.node(a, b), hs.node(c, d))
  }

  lemma {:induction false} SmallSplits()
    ensures Split(2) == 1 && Split(3) == 2 && Split(4) == 2 && Split(7) == 4
  {
    SplitUnique(0, 2);
    SplitUnique(1, 3);
    SplitUnique(1, 4);
    SplitUnique(2, 7);
  }

  lemma {:induction false} TreeOfTwo(hs: Hasher, s: seq<Digest>)
    requires |s| == 2
    ensures TreeHash(hs, s) == Two(hs, s[0], s[1])
    ensures AuditPath(hs, s, 0) == [s[1]] && AuditPath(hs, s, 1) == [s[0]]
  {
    SmallSplits();
    assert AuditPath(hs, s[..1], 0) == [] && AuditPath(hs, s[1..], 0) == [];
  }

  lemma {:induction false} TreeOfThree(hs: Hasher, s: seq<Digest>)
    requires |s| == 3
    ensures TreeHash(hs, s) == hs.node(Two(hs, s[0], s[1]), s[2])
    ensures AuditPath(hs, s, 0) == [s[1], s[2]] && AuditPath(hs, s, 2) == [Two(hs, s[0], s[1])]
    ensures Subproof(hs, 2, s, false) == [Two(hs, s[0], s[1]), s[2]]
  {
    SmallSplits();
    TreeOfTwo(hs, s[..2]);
    assert AuditPath(hs, s[2..], 0) == [];
  }

  lemma {:induction false} TreeOfFour(hs: Hasher, s: seq<Digest>)
    requires |s| == 4
    ensures TreeHash(hs, s) == Four(hs, s[0], s[1], s[2], s[3])
    ensures AuditPath(hs, s, 0) == [s[1], Two(hs, s[2], s[3])]
    ensures AuditPath(hs, s, 3) == [s[2], Two(hs, s[0], s[1])]
  {
    SmallSplits();
    TreeOfTwo(hs, s[..2]);
    TreeOfTwo(hs, s[2..]);
  }

  /** Three of four leaves. */
  lemma {:induction false} ThreeOfFour(hs: Hasher, s: seq<Digest>)
    requires |s| == 4
    ensures Subproof(hs, 3, s, true) == [s[2], s[3], Two(hs, s[0], s[1])]
  {
    SmallSplits();
    TreeOfTwo(hs, s[..2]);
    var r := s[2..];
    assert Subproof(hs, 1, r[..1], false) == [r[0]];
    assert Subproof(hs, 1, r, false) == [r[0], r[1]];
  }

  lemma {:induction false} SevenLeaves(hs: Hasher, s: seq<Digest>)
    requires |s| == 7
    ensures var k, l := Four(hs, s[0], s[1], s[2], s[3]), hs.node(Two(hs, s[4], s[5]), s[6]);
      && TreeHash(hs, s) == hs.node(k, l)
      && InclusionProof(hs, s, 0) == Some([s[1], Two(hs, s[2], s[3]), l])
      && InclusionProof(hs, s, 3) == Some([s[2], Two(hs, s[0], s[1]), l])
      && InclusionProof(hs, s, 4) == Some([s[5], s[6], k])
      && InclusionProof(hs, s, 6) == Some([Two(hs, s[4], s[5]), k])
  {
    SmallSplits();
    var left, right := s[..4], s[4..];
    TreeOfFour(hs, left);
    TreeOfThree(hs, right);
    var k, l := Four(hs, s[0], s[1], s[2], s[3]), hs.node(Two(hs, s[4], s[5]), s[6]);
    assert AuditPath(hs, s, 0) == [s[1], Two(hs, s[2], s[3]), l];
    assert AuditPath(hs, s, 3) == [s[2], Two(hs, s[0], s[1]), l];
    assert AuditPath(hs, s, 4) == [s[5], s[6], k];
    assert AuditPath(hs, s, 6) == [Two(hs, s[4], s[5]), k];
  }

  lemma {:induction false} SevenLeavesGrown(hs: Hasher, s: seq<Digest>)
    requires |s| == 7
    ensures var k, l := Four(hs, s[0], s[1], s[2], s[3]), hs.node(Two(hs, s[4], s[5]), s[6]);
      && ConsistencyProof(hs, s, 3) == Some([s[2], s[3], Two(hs, s[0], s[1]), l])
      && ConsistencyProof(hs, s, 4) == Some([l])
      && ConsistencyProof(hs, s, 6) == Some([Two(hs, s[4], s[5]), s[6], k])
  {
    SmallSplits();
    var left, right := s[..4], s[4..];
    TreeOfFour(hs, left);
    TreeOfThree(hs, right);
    ThreeOfFour(hs, left);
    var k, l := Four(hs, s[0], s[1], s[2], s[3]), hs.node(Two(hs, s[4], s[5]), s[6]);
    assert Subproof(hs, 3, s, true) == [s[2], s[3], Two(hs, s[0], s[1]), l];
    assert Subproof(hs, 4, s, true) == [l];
    assert Subproof(hs, 6, s, true) == [Two(hs, s[4], s[5]), s[6], k];
  }
}
