/**
 The two proof verifiers, and what accepting a proof means. Generated proofs
 are always accepted; an accepted proof is the generated one, or else it
 yields two different node preimages with the same hash.
 */
module MerkleProofs {
  import opened Prelude
  import opened Powers
  import opened Merkle
  import opened MerkleWalk

  // ---- what the verifiers decide -------------------------------------------

  predicate AcceptsInclusion(hs: Hasher, index: int, size: int, leaf: Digest, proof: seq<Digest>, root: Digest) {
    0 <= index < size && RootFrom(hs, index, size, leaf, proof) == Some(root)
  }

  /** The path that is walked: the old root is spliced in when the old tree is perfect. */
  function Spliced(m: nat, first: Digest, proof: seq<Digest>): seq<Digest> {
    if IsPow2(m) then [first] + proof else proof
  }

  predicate AcceptsConsistency(hs: Hasher, m: nat, n: nat, first: Digest, second: Digest, proof: seq<Digest>) {
    && m <= n
    && (m == n ==> proof == [] && first == second)
    && (m == 0 ==> proof == [])
    && (0 < m < n ==> HeadsFrom(hs, m, n, Spliced(m, first, proof)) == Some(Heads(first, second)))
  }

  // ---- the verifiers -------------------------------------------------------

  method VerifyInclusion(hs: Hasher, index: int, size: int, leaf: Digest, proof: seq<Digest>, root: Digest)
    returns (ok: bool)
    ensures ok == AcceptsInclusion(hs, index, size, leaf, proof, root)
  {
    if index >= size || index < 0 {
      return false;
    }
    ClimbIsRootFrom(hs, index, size, leaf, proof);
    ghost var outcome := RootFrom(hs, index, size, leaf, proof);
    var fn: nat, sn: nat, r := index, size - 1, leaf;
    ghost var first := leaf;
    for i := 0 to |proof|
      invariant SecondOf(Climb(hs, fn, sn, Heads(first, r), proof[i..])) == outcome
    {
      var p := proof[i];
      assert proof[i..][0] == p && proof[i..][1..] == proof[i + 1..];
      if sn == 0 {
        return false;
      }
      if fn % 2 == 1 || fn == sn {
        r, first := hs.node(p, r), hs.node(p, first);
        if fn % 2 == 0 {
          fn, sn := DropZeros(fn, sn);
        }
      } else {
        r := hs.node(r, p);
      }
      fn, sn := fn / 2, sn / 2;
    }
    return sn == 0 && r == root;
  }

  /** The inner loop of both verifiers. */
  method DropZeros(fn0: nat, sn0: nat) returns (fn: nat, sn: nat)
    ensures (fn, sn) == StripZeros(fn0, sn0)
  {
    fn, sn := fn0, sn0;
    while fn % 2 == 0 && fn != 0
      invariant StripZeros(fn, sn) == StripZeros(fn0, sn0)
      decreases fn
    {
      fn, sn := fn / 2, sn / 2;
    }
  }

  /** Bitwise and of two unbounded non-negative integers. */
  function BitAnd(a: nat, b: nat): nat {
    if a == 0 || b == 0 then 0 else 2 * BitAnd(a / 2, b / 2) + (if a % 2 == b % 2 == 1 then 1 else 0)
  }

  lemma {:induction false} BitAndSelf(a: nat)
    ensures BitAnd(a, a) == a
  {
    if a > 0 {
      BitAndSelf(a / 2);
    }
  }

  /** The bit trick recognises exactly the powers of two. */
  lemma {:induction false} BitAndPow2(m: nat)
    requires m > 0
    ensures BitAnd(m, m - 1) == 0 <==> IsPow2(m)
  {
    if m > 1 {
      if m % 2 == 0 {
        BitAndPow2(m / 2);
        assert (m - 1) / 2 == m / 2 - 1;
      } else {
        BitAndSelf(m / 2);
        assert (m - 1) / 2 == m / 2;
      }
    }
  }

  method VerifyConsistency(hs: Hasher, m: nat, n: nat, first: Digest, second: Digest, proof: seq<Digest>)
    returns (ok: bool)
    ensures ok == AcceptsConsistency(hs, m, n, first, second, proof)
  {
    if m > n {
      return false;
    }
    if m == n {
      return proof == [] && first == second;
    }
    if m == 0 {
      return proof == [];
    }
    var path := proof;
    BitAndPow2(m);
    if BitAnd(m, m - 1) == 0 {
      path := [first] + path;
    }
    if path == [] {
      return false;
    }
    ok := WalkConsistency(hs, m, n, first, second, path);
  }

  method WalkConsistency(hs: Hasher, m: nat, n: nat, first: Digest, second: Digest, path: seq<Digest>)
    returns (ok: bool)
    requires 0 < m < n && path != []
    ensures ok == (HeadsFrom(hs, m, n, path) == Some(Heads(first, second)))
  {
    ClimbIsHeadsFrom(hs, m, n, path);
    ghost var outcome := HeadsFrom(hs, m, n, path);
    var fn: nat, sn: nat := m - 1, n - 1;
    while fn % 2 == 1
      invariant StripOnes(fn, sn) == StripOnes(m - 1, n - 1)
      decreases fn
    {
      fn, sn := fn / 2, sn / 2;
    }
    var fr, sr := path[0], path[0];
    for i := 1 to |path|
      invariant Climb(hs, fn, sn, Heads(fr, sr), path[i..]) == outcome
    {
      var c := path[i];
      assert path[i..][0] == c && path[i..][1..] == path[i + 1..];
      if sn == 0 {
        return false;
      }
      if fn % 2 == 1 || fn == sn {
        fr, sr := hs.node(c, fr), hs.node(c, sr);
        if fn % 2 == 0 {
          fn, sn := DropZeros(fn, sn);
        }
      } else {
        sr := hs.node(sr, c);
      }
      fn, sn := fn / 2, sn / 2;
    }
    return sn == 0 && fr == first && sr == second;
  }

  // ---- completeness --------------------------------------------------------

  /** Every generated audit path is accepted for its leaf. */
  lemma {:induction false} InclusionComplete(hs: Hasher, leaves: seq<Digest>, m: nat)
    requires m < |leaves|
    ensures RootFrom(hs, m, |leaves|, leaves[m], AuditPath(hs, leaves, m)) == Some(TreeHash(hs, leaves))
    decreases |leaves|
  {
    if |leaves| > 1 {
      var k := Split(|leaves|);
      if m < k {
        InclusionComplete(hs, leaves[..k], m);
        CompleteLeft(hs, leaves, k, leaves[..k], m);
      } else {
        InclusionComplete(hs, leaves[k..], m - k);
        CompleteRight(hs, leaves, k, leaves[k..], m, m - k);
      }
    }
  }

  lemma {:induction false} CompleteLeft(hs: Hasher, leaves: seq<Digest>, k: nat, left: seq<Digest>, m: nat)
    requires |leaves| > 1 && k == Split(|leaves|) && left == leaves[..k] && m < k
    requires RootFrom(hs, m, |left|, left[m], AuditPath(hs, left, m)) == Some(TreeHash(hs, left))
    ensures RootFrom(hs, m, |leaves|, leaves[m], AuditPath(hs, leaves, m)) == Some(TreeHash(hs, leaves))
  {
    RootFromLeft(hs, m, |leaves|, k, leaves[m], AuditPath(hs, left, m), TreeHash(hs, leaves[k..]));
  }

  lemma {:induction false} CompleteRight(hs: Hasher, leaves: seq<Digest>, k: nat, right: seq<Digest>, m: nat, i: nat)
    requires |leaves| > 1 && k == Split(|leaves|) && right == leaves[k..] && k <= m < |leaves| && i == m - k
    requires RootFrom(hs, i, |right|, right[i], AuditPath(hs, right, i)) == Some(TreeHash(hs, right))
    ensures RootFrom(hs, m, |leaves|, leaves[m], AuditPath(hs, leaves, m)) == Some(TreeHash(hs, leaves))
  {
    RootFromRight(hs, m, |leaves|, k, i, |right|, leaves[m], AuditPath(hs, right, i), TreeHash(hs, leaves[..k]));
  }

  lemma {:induction false} RootFromLeft(hs: Hasher, m: nat, n: nat, k: nat, leaf: Digest, below: seq<Digest>,
                                        top: Digest)
    requires n > 1 && k == Split(n) && m < k && RootFrom(hs, m, k, leaf, below).Some?
    ensures RootFrom(hs, m, n, leaf, below + [top]) == Some(hs.node(RootFrom(hs, m, k, leaf, below).value, top))
  {
    assert (below + [top])[..|below|] == below;
  }

  lemma {:induction false} RootFromRight(hs: Hasher, m: nat, n: nat, k: nat, i: nat, r: nat, leaf: Digest,
                                         below: seq<Digest>, top: Digest)
    requires n > 1 && k == Split(n) && i == m - k && r == n - k && i < r && RootFrom(hs, i, r, leaf, below).Some?
    ensures RootFrom(hs, m, n, leaf, below + [top]) == Some(hs.node(top, RootFrom(hs, i, r, leaf, below).value))
  {
    assert (below + [top])[..|below|] == below;
  }

  /** A tree whose size lies in (k, 2k] splits at k. */
  lemma TreeHashSplit(hs: Hasher, leaves: seq<Digest>, e: nat)
    requires Pow2(e) < |leaves| <= 2 * Pow2(e)
    ensures TreeHash(hs, leaves) == hs.node(TreeHash(hs, leaves[..Pow2(e)]), TreeHash(hs, leaves[Pow2(e)..]))
  {
    SplitUnique(e, |leaves|);
  }

  /** A prefix that reaches into the right subtree splits where the whole tree does. */
  lemma {:induction false} TreeHashPrefix(hs: Hasher, leaves: seq<Digest>, m: nat, k: nat, right: seq<Digest>, i: nat)
    requires |leaves| > 1 && k == Split(|leaves|) && right == leaves[k..] && 0 < i == m - k <= |right|
    ensures TreeHash(hs, leaves[..m]) == hs.node(TreeHash(hs, leaves[..k]), TreeHash(hs, right[..i]))
  {
    var first := leaves[..m];
    TreeHashSplit(hs, first, SplitExp(|leaves|));
    assert first[..k] == leaves[..k] && first[k..] == right[..i];
  }

  /** The path claims the root of the first `m` leaves and the root of them all. */
  predicate Claims(hs: Hasher, m: nat, leaves: seq<Digest>, path: seq<Digest>)
    requires 0 < m <= |leaves|
  {
    HeadsFrom(hs, m, |leaves|, path) == Some(Heads(TreeHash(hs, leaves[..m]), TreeHash(hs, leaves)))
  }

  lemma ClaimsLeft(hs: Hasher, m: nat, leaves: seq<Digest>, below: seq<Digest>)
    requires |leaves| > 1 && 0 < m <= Split(|leaves|)
    requires Claims(hs, m, leaves[..Split(|leaves|)], below)
    ensures Claims(hs, m, leaves, below + [TreeHash(hs, leaves[Split(|leaves|)..])])
  {
    var k := Split(|leaves|);
    assert leaves[..k][..m] == leaves[..m];
    HeadsFromLeft(hs, m, |leaves|, below, TreeHash(hs, leaves[k..]));
  }

  lemma {:induction false} ClaimsRight(hs: Hasher, m: nat, leaves: seq<Digest>, k: nat, right: seq<Digest>, i: nat,
                                       below: seq<Digest>)
    requires |leaves| > 1 && k == Split(|leaves|) && right == leaves[k..] && 0 < i == m - k < |right|
    requires HeadsFrom(hs, i, |right|, below) == Some(Heads(TreeHash(hs, right[..i]), TreeHash(hs, right)))
    ensures HeadsFrom(hs, m, |leaves|, below + [TreeHash(hs, leaves[..k])])
         == Some(Heads(TreeHash(hs, leaves[..m]), TreeHash(hs, leaves)))
  {
    TreeHashPrefix(hs, leaves, m, k, right, i);
    HeadsFromRightAt(hs, m, |leaves|, k, i, |right|, below, TreeHash(hs, leaves[..k]));
  }

  lemma {:induction false} HeadsFromRightAt(hs: Hasher, m: nat, n: nat, k: nat, i: nat, r: nat, below: seq<Digest>,
                                            top: Digest)
    requires n > 1 && k == Split(n) && 0 < i == m - k && r == n - k && i < r
    ensures HeadsFrom(hs, m, n, below + [top]) == UnderRight(hs, HeadsFrom(hs, i, r, below), top)
  {
    HeadsFromRight(hs, m, n, below, top);
  }

  lemma {:induction false} SubproofComplete(hs: Hasher, m: nat, leaves: seq<Digest>)
    requires 0 < m <= |leaves|
    ensures Claims(hs, m, leaves, Subproof(hs, m, leaves, false))
    decreases |leaves|
  {
    if m == |leaves| {
      assert leaves[..m] == leaves;
    } else {
      var k := Split(|leaves|);
      if m <= k {
        SubproofComplete(hs, m, leaves[..k]);
        ClaimsLeft(hs, m, leaves, Subproof(hs, m, leaves[..k], false));
      } else {
        SubproofComplete(hs, m - k, leaves[k..]);
        ClaimsRight(hs, m, leaves, k, leaves[k..], m - k, Subproof(hs, m - k, leaves[k..], false));
      }
    }
  }

  lemma {:induction false} Pow2NotBetween(m: nat, e: nat)
    requires Pow2(e) < m < 2 * Pow2(e)
    ensures !IsPow2(m)
  {
    if IsPow2(m) {
      var d := IsPow2Exp(m);
      Pow2Gap(d, e);
      Pow2Gap(e, d);
    }
  }

  /** Splicing in the old root turns the transmitted proof into the full path. */
  lemma {:induction false} SubproofSpliced(hs: Hasher, m: nat, leaves: seq<Digest>)
    requires 0 < m <= |leaves| && (m < |leaves| || IsPow2(m))
    ensures Spliced(m, TreeHash(hs, leaves[..m]), Subproof(hs, m, leaves, true)) == Subproof(hs, m, leaves, false)
    decreases |leaves|
  {
    if m == |leaves| {
      assert leaves[..m] == leaves;
    } else {
      var k := Split(|leaves|);
      if m <= k {
        Pow2IsPow2(SplitExp(|leaves|));
        SubproofSpliced(hs, m, leaves[..k]);
        assert leaves[..k][..m] == leaves[..m];
        SplicedLeft(m, TreeHash(hs, leaves[..m]), Subproof(hs, m, leaves[..k], true), TreeHash(hs, leaves[k..]));
      } else {
        Pow2NotBetween(m, SplitExp(|leaves|));
      }
    }
  }

  lemma SplicedLeft(m: nat, first: Digest, below: seq<Digest>, top: Digest)
    ensures Spliced(m, first, below + [top]) == Spliced(m, first, below) + [top]
  {
  }

  /** Every generated consistency proof is accepted between the two true roots. */
  lemma ConsistencyComplete(hs: Hasher, leaves: seq<Digest>, m: nat)
    requires 0 < m <= |leaves|
    ensures AcceptsConsistency(hs, m, |leaves|, TreeHash(hs, leaves[..m]), TreeHash(hs, leaves),
                               ConsistencyProof(hs, leaves, m).value)
  {
    if m == |leaves| {
      assert leaves[..m] == leaves;
    } else {
      SubproofSpliced(hs, m, leaves);
      SubproofComplete(hs, m, leaves);
    }
  }

  // ---- soundness -----------------------------------------------------------

  /** Two preimages of the node hash. */
  datatype Collision = Collision(left: Digest, right: Digest, left': Digest, right': Digest)

  predicate IsCollision(hs: Hasher, c: Collision) {
    && (c.left, c.right) != (c.left', c.right')
    && hs.node(c.left, c.right) == hs.node(c.left', c.right')
  }

  /**
   From an accepted inclusion proof for the tree over `leaves`, compute a
   collision. Finding none means that the leaf and the path are the true ones.
   */
  function InclusionCollision(hs: Hasher, leaves: seq<Digest>, m: nat, leaf: Digest, path: seq<Digest>)
    : (c: Option<Collision>)
    requires m < |leaves|
    requires RootFrom(hs, m, |leaves|, leaf, path) == Some(TreeHash(hs, leaves))
    ensures c.Some? ==> IsCollision(hs, c.value)
    ensures c.None? ==> leaf == leaves[m] && path == AuditPath(hs, leaves, m)
    decreases |leaves|
  {
    if |leaves| == 1 then None
    else
      var k, top, below := Split(|leaves|), path[|path| - 1], path[..|path| - 1];
      assert path == below + [top];
      var l, r := TreeHash(hs, leaves[..k]), TreeHash(hs, leaves[k..]);
      if m < k then
        var claimed := RootFrom(hs, m, k, leaf, below).value;
        if (claimed, top) != (l, r) then Some(Collision(claimed, top, l, r))
        else InclusionCollision(hs, leaves[..k], m, leaf, below)
      else
        var claimed := RootFrom(hs, m - k, |leaves| - k, leaf, below).value;
        if (top, claimed) != (l, r) then Some(Collision(top, claimed, l, r))
        else InclusionCollision(hs, leaves[k..], m - k, leaf, below)
  }

  /** The same for a path that claims the true new root: finding none means that it is the true path. */
  function PathCollision(hs: Hasher, m: nat, leaves: seq<Digest>, path: seq<Digest>): (c: Option<Collision>)
    requires 0 < m <= |leaves|
    requires var h := HeadsFrom(hs, m, |leaves|, path); h.Some? && h.value.second == TreeHash(hs, leaves)
    ensures c.Some? ==> IsCollision(hs, c.value)
    ensures c.None? ==> path == Subproof(hs, m, leaves, false)
    decreases |leaves|
  {
    if m == |leaves| then None
    else
      var k, top, below := Split(|leaves|), path[|path| - 1], path[..|path| - 1];
      assert path == below + [top];
      var l, r := TreeHash(hs, leaves[..k]), TreeHash(hs, leaves[k..]);
      if m <= k then
        var claimed := HeadsFrom(hs, m, k, below).value.second;
        if (claimed, top) != (l, r) then Some(Collision(claimed, top, l, r))
        else PathCollision(hs, m, leaves[..k], below)
      else
        var claimed := HeadsFrom(hs, m - k, |leaves| - k, below).value.second;
        if (top, claimed) != (l, r) then Some(Collision(top, claimed, l, r))
        else PathCollision(hs, m - k, leaves[k..], below)
  }

  /**
   From an accepted consistency proof whose new root is that of `leaves`,
   compute a collision. Finding none means that the old root is the root of
   the first `m` leaves and that the proof is the generated one.
   */
  function ConsistencyCollision(hs: Hasher, leaves: seq<Digest>, m: nat, first: Digest, proof: seq<Digest>)
    : (c: Option<Collision>)
    requires 0 < m <= |leaves|
    requires AcceptsConsistency(hs, m, |leaves|, first, TreeHash(hs, leaves), proof)
    ensures c.Some? ==> IsCollision(hs, c.value)
    ensures c.None? ==> first == TreeHash(hs, leaves[..m]) && Some(proof) == ConsistencyProof(hs, leaves, m)
  {
    if m == |leaves| then
      assert leaves[..m] == leaves;
      None
    else
      var path := Spliced(m, first, proof);
      var c := PathCollision(hs, m, leaves, path);
      SubproofComplete(hs, m, leaves);
      SubproofSpliced(hs, m, leaves);
      assert c.None? ==> proof == path[if IsPow2(m) then 1 else 0..];
      assert c.None? ==> Subproof(hs, m, leaves, true) == path[if IsPow2(m) then 1 else 0..];
      c
  }

  /** Two lists of equal length and equal root are equal, or a collision is computed. */
  function RootCollision(hs: Hasher, a: seq<Digest>, b: seq<Digest>): (c: Option<Collision>)
    requires |a| == |b| && TreeHash(hs, a) == TreeHash(hs, b)
    ensures c.Some? ==> IsCollision(hs, c.value)
    ensures c.None? ==> a == b
    decreases |a|
  {
    if |a| <= 1 then None
    else
      var k := Split(|a|);
      var l, r := TreeHash(hs, a[..k]), TreeHash(hs, a[k..]);
      var l', r' := TreeHash(hs, b[..k]), TreeHash(hs, b[k..]);
      if (l, r) != (l', r') then Some(Collision(l, r, l', r'))
      else
        var c := RootCollision(hs, a[..k], b[..k]);
        assert a == a[..k] + a[k..] && b == b[..k] + b[k..];
        if c.Some? then c else RootCollision(hs, a[k..], b[k..])
  }

  /** A log whose root is accepted as an older head of `leaves` is a prefix of it, or a collision is computed. */
  function PrefixCollision(hs: Hasher, older: seq<Digest>, leaves: seq<Digest>, proof: seq<Digest>)
    : (c: Option<Collision>)
    requires |older| <= |leaves|
    requires AcceptsConsistency(hs, |older|, |leaves|, TreeHash(hs, older), TreeHash(hs, leaves), proof)
    ensures c.Some? ==> IsCollision(hs, c.value)
    ensures c.None? ==> older == leaves[..|older|]
  {
    if older == [] then None
    else
      var c := ConsistencyCollision(hs, leaves, |older|, TreeHash(hs, older), proof);
      if c.Some? then c else RootCollision(hs, older, leaves[..|older|])
  }

  // ---- exactly what is accepted --------------------------------------------

  /**
   An index, leaf and proof are accepted under a tree's root exactly if they
   are the true ones, or there is a collision.
   */
  lemma {:induction false} InclusionExact(hs: Hasher, leaves: seq<Digest>, index: int, leaf: Digest, proof: seq<Digest>)
    returns (c: Option<Collision>)
    ensures c.Some? ==> IsCollision(hs, c.value)
    ensures c.None? ==>
      (AcceptsInclusion(hs, index, |leaves|, leaf, proof, TreeHash(hs, leaves))
       <==> 0 <= index < |leaves| && leaf == leaves[index] && proof == AuditPath(hs, leaves, index))
  {
    c := None;
    if 0 <= index < |leaves| {
      InclusionComplete(hs, leaves, index);
      if AcceptsInclusion(hs, index, |leaves|, leaf, proof, TreeHash(hs, leaves)) {
        c := InclusionCollision(hs, leaves, index, leaf, proof);
      }
    }
  }

  /**
   An older size, root and proof are accepted under a tree's root exactly if
   they are the true ones, or there is a collision. Anything of size 0 is
   consistent with every tree that is not empty, without a proof.
   */
  lemma {:induction false} ConsistencyExact(hs: Hasher, leaves: seq<Digest>, m: nat, first: Digest, proof: seq<Digest>)
    returns (c: Option<Collision>)
    ensures c.Some? ==> IsCollision(hs, c.value)
    ensures c.None? ==>
      (AcceptsConsistency(hs, m, |leaves|, first, TreeHash(hs, leaves), proof)
       <==> if m == 0 then proof == [] && (leaves == [] ==> first == hs.empty)
            else m <= |leaves| && first == TreeHash(hs, leaves[..m]) && ConsistencyProof(hs, leaves, m) == Some(proof))
  {
    c := None;
    if 0 < m <= |leaves| {
      ConsistencyComplete(hs, leaves, m);
      if AcceptsConsistency(hs, m, |leaves|, first, TreeHash(hs, leaves), proof) {
        c := ConsistencyCollision(hs, leaves, m, first, proof);
      }
    }
  }
}
