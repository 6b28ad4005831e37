/**
 The hash functions of the log as they are built from one byte hash. A node
 collision is traced to two different byte strings with the same hash. This
 needs widths: concatenation alone does not tell where a node's left half ends.
 */
module HashBytes {
  import opened Prelude
  import opened Powers
  import opened Merkle
  import opened MerkleWalk
  import opened MerkleProofs

  const LEAF_PREFIX: Bytes := [0]
  const NODE_PREFIX: Bytes := [1]

  /** Leaf, node and empty hashes made from `h` with the two prefixes; digests have one width. */
  ghost predicate BuiltFrom(hs: Hasher, h: Bytes -> Digest, width: nat) {
    && (forall b: Bytes :: hs.leaf(b) == h(LEAF_PREFIX + b))
    && (forall l: Digest, r: Digest :: hs.node(l, r) == h(NODE_PREFIX + l + r))
    && hs.empty == h([])
    && (forall b: Bytes :: |h(b)| == width)
  }

  function Preimage(l: Digest, r: Digest): Bytes {
    NODE_PREFIX + l + r
  }

  /** The two node preimages agree on where one of their halves ends. */
  predicate Aligned(c: Collision) {
    |c.left| == |c.left'| || |c.right| == |c.right'|
  }

  predicate AlignedIfAny(c: Option<Collision>) {
    c.Some? ==> Aligned(c.value)
  }

  predicate IsByteCollision(h: Bytes -> Digest, x: Bytes, y: Bytes) {
    x != y && h(x) == h(y)
  }

  lemma PreimageSplits(l: Digest, r: Digest, l': Digest, r': Digest)
    requires Preimage(l, r) == Preimage(l', r') && (|l| == |l'| || |r| == |r'|)
    ensures l == l' && r == r'
  {
    var x, y := Preimage(l, r), Preimage(l', r');
    assert |l| + |r| == |x| - 1 && |l'| + |r'| == |y| - 1;
    assert l == x[1..1 + |l|] && l' == y[1..1 + |l'|];
    assert r == x[1 + |l|..] && r' == y[1 + |l'|..];
  }

  /** An aligned node collision is a collision of the byte hash. */
  lemma AlignedIsByteCollision(hs: Hasher, h: Bytes -> Digest, width: nat, c: Collision)
    requires BuiltFrom(hs, h, width) && IsCollision(hs, c) && Aligned(c)
    ensures IsByteCollision(h, Preimage(c.left, c.right), Preimage(c.left', c.right'))
  {
    if Preimage(c.left, c.right) == Preimage(c.left', c.right') {
      PreimageSplits(c.left, c.right, c.left', c.right');
    }
  }

  // ---- widths --------------------------------------------------------------

  ghost predicate NodesWide(hs: Hasher, width: nat) {
    |hs.empty| == width && forall l, r :: |hs.node(l, r)| == width
  }

  predicate AllWide(ds: seq<Digest>, width: nat) {
    forall i :: 0 <= i < |ds| ==> |ds[i]| == width
  }

  lemma WideSlices(ds: seq<Digest>, width: nat, k: nat)
    requires AllWide(ds, width) && k <= |ds|
    ensures AllWide(ds[..k], width) && AllWide(ds[k..], width)
  {
  }

  lemma {:induction false} RootWidth(hs: Hasher, width: nat, leaves: seq<Digest>)
    requires NodesWide(hs, width) && AllWide(leaves, width)
    ensures |TreeHash(hs, leaves)| == width
  {
  }

  lemma {:induction false} ClaimedRootWidth(hs: Hasher, width: nat, m: nat, n: nat, leaf: Digest, path: seq<Digest>)
    requires NodesWide(hs, width) && m < n && |leaf| == width
    ensures RootFrom(hs, m, n, leaf, path).Some? ==> |RootFrom(hs, m, n, leaf, path).value| == width
  {
  }

  lemma {:induction false} ClaimedHeadWidth(hs: Hasher, width: nat, m: nat, n: nat, path: seq<Digest>)
    requires NodesWide(hs, width) && 0 < m <= n && (path == [] || |path[0]| == width)
    ensures HeadsFrom(hs, m, n, path).Some? ==> |HeadsFrom(hs, m, n, path).value.second| == width
  {
  }

  // ---- inclusion -----------------------------------------------------------

  /** For a leaf of the right width, whatever the proof, a computed collision is aligned. */
  lemma {:induction false} InclusionAligned(hs: Hasher, width: nat, leaves: seq<Digest>, m: nat, leaf: Digest,
                                            path: seq<Digest>)
    requires NodesWide(hs, width) && AllWide(leaves, width) && |leaf| == width
    requires m < |leaves| && RootFrom(hs, m, |leaves|, leaf, path) == Some(TreeHash(hs, leaves))
    ensures AlignedIfAny(InclusionCollision(hs, leaves, m, leaf, path))
    decreases |leaves|, 1
  {
    if |leaves| > 1 {
      var k := Split(|leaves|);
      assert path == path[..|path| - 1] + [path[|path| - 1]];
      WideSlices(leaves, width, k);
      RootWidth(hs, width, leaves[..k]);
      RootWidth(hs, width, leaves[k..]);
      if m < k {
        AlignedLeft(hs, width, leaves, m, leaf, path[..|path| - 1], path[|path| - 1]);
      } else {
        AlignedRight(hs, width, leaves, m, leaf, path[..|path| - 1], path[|path| - 1]);
      }
    }
  }

  lemma {:induction false} AlignedLeft(hs: Hasher, width: nat, leaves: seq<Digest>, m: nat, leaf: Digest,
                                       below: seq<Digest>, top: Digest)
    requires NodesWide(hs, width) && |leaf| == width
    requires |leaves| > 1 && AllWide(leaves[..Split(|leaves|)], width) && m < Split(|leaves|)
    requires RootFrom(hs, m, |leaves|, leaf, below + [top]) == Some(TreeHash(hs, leaves))
    requires |TreeHash(hs, leaves[..Split(|leaves|)])| == width
    ensures AlignedIfAny(InclusionCollision(hs, leaves, m, leaf, below + [top]))
    decreases |leaves|, 0
  {
    var left := leaves[..Split(|leaves|)];
    var claimed := RootFrom(hs, m, |left|, leaf, below);
    assert (below + [top])[..|below|] == below;
    ClaimedRootWidth(hs, width, m, |left|, leaf, below);
    if claimed == Some(TreeHash(hs, left)) {
      InclusionAligned(hs, width, left, m, leaf, below);
    }
  }

  lemma {:induction false} AlignedRight(hs: Hasher, width: nat, leaves: seq<Digest>, m: nat, leaf: Digest,
                                        below: seq<Digest>, top: Digest)
    requires NodesWide(hs, width) && |leaf| == width
    requires |leaves| > 1 && AllWide(leaves[Split(|leaves|)..], width) && Split(|leaves|) <= m < |leaves|
    requires RootFrom(hs, m, |leaves|, leaf, below + [top]) == Some(TreeHash(hs, leaves))
    requires |TreeHash(hs, leaves[Split(|leaves|)..])| == width
    ensures AlignedIfAny(InclusionCollision(hs, leaves, m, leaf, below + [top]))
    decreases |leaves|, 0
  {
    var k := Split(|leaves|);
    var right, i: nat := leaves[k..], m - k;
    RightStep(hs, leaves, k, right, m, i, leaf, below, top);
    BelowAligned(hs, width, right, i, leaf, below);
  }

  lemma {:induction false} BelowAligned(hs: Hasher, width: nat, leaves: seq<Digest>, m: nat, leaf: Digest,
                                        path: seq<Digest>)
    requires NodesWide(hs, width) && AllWide(leaves, width) && |leaf| == width
    requires m < |leaves| && RootFrom(hs, m, |leaves|, leaf, path).Some?
    ensures |RootFrom(hs, m, |leaves|, leaf, path).value| == width
    ensures RootFrom(hs, m, |leaves|, leaf, path) == Some(TreeHash(hs, leaves)) ==>
      AlignedIfAny(InclusionCollision(hs, leaves, m, leaf, path))
    decreases |leaves|, 2
  {
    ClaimedRootWidth(hs, width, m, |leaves|, leaf, path);
    if RootFrom(hs, m, |leaves|, leaf, path) == Some(TreeHash(hs, leaves)) {
      InclusionAligned(hs, width, leaves, m, leaf, path);
    }
  }

  /** What the collision finder does with a right subtree. */
  lemma {:induction false} RightStep(hs: Hasher, leaves: seq<Digest>, k: nat, right: seq<Digest>, m: nat, i: nat,
                                     leaf: Digest, below: seq<Digest>, top: Digest)
    requires |leaves| > 1 && k == Split(|leaves|) && right == leaves[k..] && i == m - k < |right|
    requires RootFrom(hs, m, |leaves|, leaf, below + [top]) == Some(TreeHash(hs, leaves))
    ensures var claimed := RootFrom(hs, i, |right|, leaf, below);
      && claimed.Some?
      && InclusionCollision(hs, leaves, m, leaf, below + [top])
         == if claimed.value == TreeHash(hs, right) && top == TreeHash(hs, leaves[..k])
            then InclusionCollision(hs, right, i, leaf, below)
            else Some(Collision(top, claimed.value, TreeHash(hs, leaves[..k]), TreeHash(hs, right)))
  {
    assert (below + [top])[..|below|] == below;
  }

  /**
   An accepted inclusion: unless two byte strings with one hash are at hand,
   the leaf and the proof are the true ones exactly if the leaf has digest width.
   */
  lemma {:induction false} InclusionSound(hs: Hasher, h: Bytes -> Digest, width: nat, leaves: seq<Digest>, index: int,
                                          leaf: Digest, proof: seq<Digest>)
    returns (x: Bytes, y: Bytes)
    requires BuiltFrom(hs, h, width) && AllWide(leaves, width)
    requires AcceptsInclusion(hs, index, |leaves|, leaf, proof, TreeHash(hs, leaves))
    ensures IsByteCollision(h, x, y) ||
      (leaf == leaves[index] && Some(proof) == InclusionProof(hs, leaves, index) <==> |leaf| == width)
  {
    x, y := [], [];
    if |leaf| == width {
      InclusionAligned(hs, width, leaves, index, leaf, proof);
      var c := InclusionCollision(hs, leaves, index, leaf, proof);
      if c.Some? {
        AlignedIsByteCollision(hs, h, width, c.value);
        x, y := Preimage(c.value.left, c.value.right), Preimage(c.value.left', c.value.right');
      }
    }
  }

  // ---- consistency ---------------------------------------------------------

  /** For a walk that starts from a digest of the right width, a computed collision is aligned. */
  lemma {:induction false} PathAligned(hs: Hasher, width: nat, m: nat, leaves: seq<Digest>, path: seq<Digest>)
    requires NodesWide(hs, width) && AllWide(leaves, width) && path != [] && |path[0]| == width
    requires 0 < m <= |leaves| && ClaimsSecond(hs, m, leaves, path)
    ensures AlignedIfAny(PathCollision(hs, m, leaves, path))
    decreases |leaves|, 1
  {
    if m < |leaves| {
      var k := Split(|leaves|);
      assert path == path[..|path| - 1] + [path[|path| - 1]];
      WideSlices(leaves, width, k);
      RootWidth(hs, width, leaves[..k]);
      RootWidth(hs, width, leaves[k..]);
      if m <= k {
        PathAlignedLeft(hs, width, m, leaves, path[..|path| - 1], path[|path| - 1]);
      } else {
        PathAlignedRight(hs, width, m, leaves, path[..|path| - 1], path[|path| - 1]);
      }
    }
  }

  /** The path claims the true new root. */
  predicate ClaimsSecond(hs: Hasher, m: nat, leaves: seq<Digest>, path: seq<Digest>)
    requires 0 < m <= |leaves|
  {
    var o := HeadsFrom(hs, m, |leaves|, path);
    o.Some? && o.value.second == TreeHash(hs, leaves)
  }

  lemma {:induction false} PathAlignedLeft(hs: Hasher, width: nat, m: nat, leaves: seq<Digest>, below: seq<Digest>,
                                           top: Digest)
    requires NodesWide(hs, width) && (below == [] || |below[0]| == width)
    requires |leaves| > 1 && AllWide(leaves[..Split(|leaves|)], width) && 0 < m <= Split(|leaves|)
    requires ClaimsSecond(hs, m, leaves, below + [top])
    requires |TreeHash(hs, leaves[..Split(|leaves|)])| == width
    ensures AlignedIfAny(PathCollision(hs, m, leaves, below + [top]))
    decreases |leaves|, 0
  {
    var left := leaves[..Split(|leaves|)];
    assert (below + [top])[..|below|] == below;
    assert HeadsFrom(hs, m, |left|, below).Some?;
    ClaimedHeadWidth(hs, width, m, |left|, below);
    if ClaimsSecond(hs, m, left, below) {
      PathAligned(hs, width, m, left, below);
    }
  }

  lemma {:induction false} PathAlignedRight(hs: Hasher, width: nat, m: nat, leaves: seq<Digest>, below: seq<Digest>,
                                            top: Digest)
    requires NodesWide(hs, width) && (below == [] || |below[0]| == width)
    requires |leaves| > 1 && AllWide(leaves[Split(|leaves|)..], width) && Split(|leaves|) < m < |leaves|
    requires ClaimsSecond(hs, m, leaves, below + [top])
    requires |TreeHash(hs, leaves[Split(|leaves|)..])| == width
    ensures AlignedIfAny(PathCollision(hs, m, leaves, below + [top]))
    decreases |leaves|, 0
  {
    var k := Split(|leaves|);
    var right, i: nat := leaves[k..], m - k;
    PathRightStep(hs, m, leaves, k, right, i, below, top);
    PathBelowAligned(hs, width, i, right, below);
  }

  lemma {:induction false} PathBelowAligned(hs: Hasher, width: nat, m: nat, leaves: seq<Digest>, path: seq<Digest>)
    requires NodesWide(hs, width) && AllWide(leaves, width) && path != [] && |path[0]| == width
    requires 0 < m <= |leaves| && HeadsFrom(hs, m, |leaves|, path).Some?
    ensures |HeadsFrom(hs, m, |leaves|, path).value.second| == width
    ensures ClaimsSecond(hs, m, leaves, path) ==> AlignedIfAny(PathCollision(hs, m, leaves, path))
    decreases |leaves|, 2
  {
    ClaimedHeadWidth(hs, width, m, |leaves|, path);
    if ClaimsSecond(hs, m, leaves, path) {
      PathAligned(hs, width, m, leaves, path);
    }
  }

  lemma {:induction false} PathRightStep(hs: Hasher, m: nat, leaves: seq<Digest>, k: nat, right: seq<Digest>, i: nat,
                                         below: seq<Digest>, top: Digest)
    requires |leaves| > 1 && k == Split(|leaves|) && right == leaves[k..] && 0 < i == m - k < |right|
    requires ClaimsSecond(hs, m, leaves, below + [top])
    ensures below != [] && HeadsFrom(hs, i, |right|, below).Some?
    ensures var claimed := HeadsFrom(hs, i, |right|, below).value.second;
      PathCollision(hs, m, leaves, below + [top])
         == if claimed == TreeHash(hs, right) && top == TreeHash(hs, leaves[..k])
            then PathCollision(hs, i, right, below)
            else Some(Collision(top, claimed, TreeHash(hs, leaves[..k]), TreeHash(hs, right)))
  {
    assert (below + [top])[..|below|] == below;
    assert HeadsFrom(hs, i, |right|, below).Some?;
  }

  /** The first digest that the walk starts from has digest width. */
  predicate StartsWide(m: nat, first: Digest, proof: seq<Digest>, width: nat) {
    var path := Spliced(m, first, proof);
    path != [] && |path[0]| == width
  }

  /** A generated path starts from the root of a subtree. */
  lemma {:induction false} SubproofStartsWide(hs: Hasher, width: nat, m: nat, leaves: seq<Digest>)
    requires NodesWide(hs, width) && AllWide(leaves, width) && 0 < m <= |leaves|
    ensures var path := Subproof(hs, m, leaves, false); path != [] && |path[0]| == width
    decreases |leaves|
  {
    if m == |leaves| {
      RootWidth(hs, width, leaves);
    } else {
      var k := Split(|leaves|);
      WideSlices(leaves, width, k);
      if m <= k {
        SubproofStartsWide(hs, width, m, leaves[..k]);
      } else {
        SubproofStartsWide(hs, width, m - k, leaves[k..]);
      }
    }
  }

  /** The old root is that of the first `m` leaves and the proof is the generated one. */
  predicate TrueConsistency(hs: Hasher, leaves: seq<Digest>, m: nat, first: Digest, proof: seq<Digest>)
    requires m <= |leaves|
  {
    first == TreeHash(hs, leaves[..m]) && Some(proof) == ConsistencyProof(hs, leaves, m)
  }

  lemma {:induction false} TrueStartsWide(hs: Hasher, width: nat, leaves: seq<Digest>, m: nat, first: Digest,
                                          proof: seq<Digest>)
    requires NodesWide(hs, width) && AllWide(leaves, width) && 0 < m < |leaves|
    requires TrueConsistency(hs, leaves, m, first, proof)
    ensures StartsWide(m, first, proof, width)
  {
    SubproofSpliced(hs, m, leaves);
    SubproofStartsWide(hs, width, m, leaves);
  }

  /**
   An accepted consistency proof: unless two byte strings with one hash are at
   hand, the old root and the proof are the true ones exactly if the walk
   starts from a digest of the right width.
   */
  lemma {:induction false} ConsistencySound(hs: Hasher, h: Bytes -> Digest, width: nat, leaves: seq<Digest>, m: nat,
                                            first: Digest, proof: seq<Digest>)
    returns (x: Bytes, y: Bytes)
    requires BuiltFrom(hs, h, width) && AllWide(leaves, width) && 0 < m < |leaves|
    requires AcceptsConsistency(hs, m, |leaves|, first, TreeHash(hs, leaves), proof)
    ensures IsByteCollision(h, x, y) ||
      (TrueConsistency(hs, leaves, m, first, proof) <==> StartsWide(m, first, proof, width))
  {
    x, y := [], [];
    if TrueConsistency(hs, leaves, m, first, proof) {
      TrueStartsWide(hs, width, leaves, m, first, proof);
    } else if StartsWide(m, first, proof, width) {
      PathAligned(hs, width, m, leaves, Spliced(m, first, proof));
      var c := ConsistencyCollision(hs, leaves, m, first, proof).value;
      AlignedIsByteCollision(hs, h, width, c);
      x, y := Preimage(c.left, c.right), Preimage(c.left', c.right');
    }
  }

  /**
   The width is needed. Moving the boundary between two neighbours leaves the
   bytes of their parent unchanged, so a longer leaf with a shorter neighbour
   is accepted in place of the true ones.
   */
  lemma LeafWidthNeeded(hs: Hasher, h: Bytes -> Digest, width: nat, a: Digest, b: Digest)
    requires BuiltFrom(hs, h, width) && b != []
    ensures a + b[..1] != a
    ensures AcceptsInclusion(hs, 0, 2, a + b[..1], [b[1..]], TreeHash(hs, [a, b]))
    ensures AcceptsConsistency(hs, 1, 2, a + b[..1], TreeHash(hs, [a, b]), [b[1..]])
  {
    assert Split(2) == 1;
    assert NODE_PREFIX + (a + b[..1]) + b[1..] == NODE_PREFIX + a + b;
    assert [a, b][..1] == [a] && [a, b][1..] == [b];
    assert [b[1..]][..0] == [];
    assert IsPow2(1);
    assert [a + b[..1], b[1..]][..1] == [a + b[..1]];
  }

  /** The same for an old tree that is not perfect: there the proof supplies the digest that the walk starts from. */
  lemma ProofWidthNeeded(hs: Hasher, h: Bytes -> Digest, width: nat, a: Digest, b: Digest, c: Digest, d: Digest)
    requires BuiltFrom(hs, h, width) && d != []
    ensures var first := hs.node(hs.node(a, b), c + d[..1]);
      && AcceptsConsistency(hs, 3, 4, first, TreeHash(hs, [a, b, c, d]), [c + d[..1], d[1..], hs.node(a, b)])
      && (first == TreeHash(hs, [a, b, c]) ==>
          IsByteCollision(h, Preimage(hs.node(a, b), c + d[..1]), Preimage(hs.node(a, b), c)))
  {
    var moved, rest, ab := c + d[..1], d[1..], hs.node(a, b);
    assert Split(2) == 1 && Split(3) == 2 && Split(4) == 2 && !IsPow2(3);
    assert Preimage(moved, rest) == Preimage(c, d);
    FourLeaves(hs, a, b, c, d);
    var path := [moved, rest, ab];
    assert path[..2] == [moved, rest] && path[..2][..1] == [moved];
    assert HeadsFrom(hs, 1, 1, [moved]) == Some(Heads(moved, moved));
    assert HeadsFrom(hs, 1, 2, [moved, rest]) == Some(Heads(moved, hs.node(c, d)));
    assert |Preimage(ab, moved)| > |Preimage(ab, c)|;
  }

  lemma FourLeaves(hs: Hasher, a: Digest, b: Digest, c: Digest, d: Digest)
    ensures TreeHash(hs, [a, b, c, d]) == hs.node(hs.node(a, b), hs.node(c, d))
    ensures TreeHash(hs, [a, b, c]) == hs.node(hs.node(a, b), c)
  {
    assert Split(2) == 1 && Split(3) == 2 && Split(4) == 2;
    assert [a, b, c, d][..2] == [a, b] && [a, b, c, d][2..] == [c, d];
    assert [a, b, c][..2] == [a, b] && [a, b, c][2..] == [c];
    TwoLeaves(hs, a, b);
    TwoLeaves(hs, c, d);
  }

  lemma {:induction false} TwoLeaves(hs: Hasher, a: Digest, b: Digest)
    ensures TreeHash(hs, [a, b]) == hs.node(a, b)
  {
    assert Split(2) == 1;
    assert [a, b][..1] == [a] && [a, b][1..] == [b];
  }
}
