/**
 Logs whose leaves are hashes of contents. The leaf and node prefixes keep the
 two kinds of hash apart, so that a root determines the contents and their
 number, and an accepted leaf hash is one of the log's under any claimed size.
 */
module LogContents {
  import opened Prelude
  import opened Powers
  import opened Merkle
  import opened MerkleWalk
  import opened HashBytes

  // ---- leaves are hashes of contents ---------------------------------------

  function LeafHashes(hs: Hasher, contents: seq<Bytes>): (ls: seq<Digest>)
    ensures |ls| == |contents|
    ensures forall i :: 0 <= i < |ls| ==> ls[i] == hs.leaf(contents[i])
  {
    seq(|contents|, i requires 0 <= i < |contents| => hs.leaf(contents[i]))
  }

  function Root(hs: Hasher, contents: seq<Bytes>): Digest {
    TreeHash(hs, LeafHashes(hs, contents))
  }

  /** The roots of no, one and two contents, down to the bytes. */
  lemma {:induction false} SmallRoots(hs: Hasher, h: Bytes -> Digest, width: nat, a: Bytes, b: Bytes)
    requires BuiltFrom(hs, h, width)
    ensures Root(hs, []) == h([]) && Root(hs, [a]) == h([0] + a)
    ensures Root(hs, [a, b]) == h([1] + h([0] + a) + h([0] + b))
  {
    var ls := LeafHashes(hs, [a, b]);
    TreeOfTwo(hs, ls);
    assert ls[0] == hs.leaf(a) && ls[1] == hs.leaf(b);
  }

  lemma LeafHashesWide(hs: Hasher, h: Bytes -> Digest, width: nat, contents: seq<Bytes>)
    requires BuiltFrom(hs, h, width)
    ensures AllWide(LeafHashes(hs, contents), width)
  {
  }

  lemma LeafHashesSplit(hs: Hasher, contents: seq<Bytes>, k: nat)
    requires k <= |contents|
    ensures LeafHashes(hs, contents)[..k] == LeafHashes(hs, contents[..k])
    ensures LeafHashes(hs, contents)[k..] == LeafHashes(hs, contents[k..])
  {
  }

  /** The byte string whose hash is the root. */
  function RootPreimage(hs: Hasher, contents: seq<Bytes>): Bytes {
    if contents == [] then []
    else if |contents| == 1 then LEAF_PREFIX + contents[0]
    else
      var k := Split(|contents|);
      Preimage(Root(hs, contents[..k]), Root(hs, contents[k..]))
  }

  lemma {:induction false} RootPreimageHashes(hs: Hasher, h: Bytes -> Digest, width: nat, contents: seq<Bytes>)
    requires BuiltFrom(hs, h, width)
    ensures h(RootPreimage(hs, contents)) == Root(hs, contents)
    ensures |Root(hs, contents)| == width
  {
    if |contents| > 1 {
      LeafHashesSplit(hs, contents, Split(|contents|));
    }
  }

  /** One byte string is the preimage of trees of one shape at the top, with the same halves. */
  lemma {:induction false} SamePreimage(hs: Hasher, h: Bytes -> Digest, width: nat, a: seq<Bytes>, b: seq<Bytes>)
    requires BuiltFrom(hs, h, width) && RootPreimage(hs, a) == RootPreimage(hs, b)
    ensures |a| <= 1 ==> a == b
    ensures |a| > 1 ==> |b| > 1
    ensures |a| > 1 ==>
      var j, k := Split(|a|), Split(|b|);
      Root(hs, a[..j]) == Root(hs, b[..k]) && Root(hs, a[j..]) == Root(hs, b[k..])
  {
    var x := RootPreimage(hs, a);
    if |a| == 1 {
      assert x[0] == 0 && x[1..] == a[0];
      assert |b| == 1 && x[1..] == b[0];
    } else if |a| > 1 {
      assert x[0] == 1;
      assert |b| > 1;
      var j, k := Split(|a|), Split(|b|);
      RootPreimageHashes(hs, h, width, a[..j]);
      RootPreimageHashes(hs, h, width, b[..k]);
      PreimageSplits(Root(hs, a[..j]), Root(hs, a[j..]), Root(hs, b[..k]), Root(hs, b[k..]));
    }
  }

  /** A root determines the whole list of contents, its length included, or two byte strings with one hash are at hand. */
  lemma {:induction false} ContentCollision(hs: Hasher, h: Bytes -> Digest, width: nat, a: seq<Bytes>, b: seq<Bytes>)
    returns (x: Bytes, y: Bytes)
    requires BuiltFrom(hs, h, width) && Root(hs, a) == Root(hs, b)
    ensures a == b || IsByteCollision(h, x, y)
    decreases |a|, 1
  {
    RootPreimageHashes(hs, h, width, a);
    RootPreimageHashes(hs, h, width, b);
    x, y := RootPreimage(hs, a), RootPreimage(hs, b);
    if x == y {
      SamePreimage(hs, h, width, a, b);
      if |a| > 1 {
        x, y := HalvesCollision(hs, h, width, a, b, Split(|a|), Split(|b|));
      }
    }
  }

  lemma {:induction false} HalvesCollision(hs: Hasher, h: Bytes -> Digest, width: nat, a: seq<Bytes>, b: seq<Bytes>,
                                           j: nat, k: nat)
    returns (x: Bytes, y: Bytes)
    requires BuiltFrom(hs, h, width) && 0 < j < |a| && 0 < k < |b|
    requires Root(hs, a[..j]) == Root(hs, b[..k]) && Root(hs, a[j..]) == Root(hs, b[k..])
    ensures a == b || IsByteCollision(h, x, y)
    decreases |a|, 0
  {
    var left, left', right, right' := a[..j], b[..k], a[j..], b[k..];
    assert a == left + right && b == left' + right';
    x, y := ContentCollision(hs, h, width, left, left');
    if left == left' {
      x, y := ContentCollision(hs, h, width, right, right');
    }
  }

  // ---- membership without the size -----------------------------------------

  /** A path's node on top of a claimed left half gives the bytes of a tree: the half is that tree's left half. */
  lemma {:induction false} LeftHalf(hs: Hasher, h: Bytes -> Digest, width: nat, contents: seq<Bytes>, claimed: Digest,
                                    top: Digest)
    requires BuiltFrom(hs, h, width) && |claimed| == width && Preimage(claimed, top) == RootPreimage(hs, contents)
    ensures |contents| > 1 && claimed == Root(hs, contents[..Split(|contents|)])
  {
    assert Preimage(claimed, top)[0] == 1;
    assert |contents| > 1;
    var left, right := contents[..Split(|contents|)], contents[Split(|contents|)..];
    RootPreimageHashes(hs, h, width, left);
    PreimageSplits(claimed, top, Root(hs, left), Root(hs, right));
  }

  lemma {:induction false} RightHalf(hs: Hasher, h: Bytes -> Digest, width: nat, contents: seq<Bytes>, claimed: Digest,
                                     top: Digest)
    requires BuiltFrom(hs, h, width) && |claimed| == width && Preimage(top, claimed) == RootPreimage(hs, contents)
    ensures |contents| > 1 && claimed == Root(hs, contents[Split(|contents|)..])
  {
    assert Preimage(top, claimed)[0] == 1;
    assert |contents| > 1;
    var left, right := contents[..Split(|contents|)], contents[Split(|contents|)..];
    RootPreimageHashes(hs, h, width, right);
    PreimageSplits(top, claimed, Root(hs, left), Root(hs, right));
  }

  /**
   The hash of a content that is accepted under any claimed size and index is
   that of some content of the list, or two byte strings with one hash are at hand.
   */
  lemma {:induction false} MemberSound(hs: Hasher, h: Bytes -> Digest, width: nat, contents: seq<Bytes>,
                                       content: Bytes, m: nat, n: nat, path: seq<Digest>)
    returns (i: nat, x: Bytes, y: Bytes)
    requires BuiltFrom(hs, h, width) && m < n
    requires RootFrom(hs, m, n, hs.leaf(content), path) == Some(Root(hs, contents))
    ensures IsByteCollision(h, x, y) || (i < |contents| && contents[i] == content)
    decreases n, 1
  {
    if n == 1 {
      i := 0;
      x, y := OnlyMember(hs, h, width, contents, content);
    } else {
      var k, top, below := Split(n), path[|path| - 1], path[..|path| - 1];
      if m < k {
        i, x, y := MemberLeft(hs, h, width, contents, content, m, k, n, below, top);
      } else {
        i, x, y := MemberRight(hs, h, width, contents, content, m - k, n - k, n, below, top);
      }
    }
  }

  /** A leaf hash that is the root is the only leaf. */
  lemma {:induction false} OnlyMember(hs: Hasher, h: Bytes -> Digest, width: nat, contents: seq<Bytes>, content: Bytes)
    returns (x: Bytes, y: Bytes)
    requires BuiltFrom(hs, h, width) && hs.leaf(content) == Root(hs, contents)
    ensures IsByteCollision(h, x, y) || contents == [content]
  {
    RootPreimageHashes(hs, h, width, contents);
    x, y := LEAF_PREFIX + content, RootPreimage(hs, contents);
    if x == y {
      SamePreimage(hs, h, width, [content], contents);
    }
  }

  lemma {:induction false} MemberLeft(hs: Hasher, h: Bytes -> Digest, width: nat, contents: seq<Bytes>,
                                      content: Bytes, m: nat, k: nat, n: nat, below: seq<Digest>, top: Digest)
    returns (i: nat, x: Bytes, y: Bytes)
    requires BuiltFrom(hs, h, width) && m < k < n
    requires var r := RootFrom(hs, m, k, hs.leaf(content), below);
      r.Some? && hs.node(r.value, top) == Root(hs, contents)
    ensures IsByteCollision(h, x, y) || (i < |contents| && contents[i] == content)
    decreases n, 0
  {
    var claimed := RootFrom(hs, m, k, hs.leaf(content), below).value;
    i := 0;
    ClaimedRootWidth(hs, width, m, k, hs.leaf(content), below);
    RootPreimageHashes(hs, h, width, contents);
    x, y := Preimage(claimed, top), RootPreimage(hs, contents);
    if x == y {
      LeftHalf(hs, h, width, contents, claimed, top);
      i, x, y := MemberSound(hs, h, width, contents[..Split(|contents|)], content, m, k, below);
    }
  }

  lemma {:induction false} MemberRight(hs: Hasher, h: Bytes -> Digest, width: nat, contents: seq<Bytes>,
                                       content: Bytes, m: nat, k: nat, n: nat, below: seq<Digest>, top: Digest)
    returns (i: nat, x: Bytes, y: Bytes)
    requires BuiltFrom(hs, h, width) && m < k < n
    requires var r := RootFrom(hs, m, k, hs.leaf(content), below);
      r.Some? && hs.node(top, r.value) == Root(hs, contents)
    ensures IsByteCollision(h, x, y) || (i < |contents| && contents[i] == content)
    decreases n, 0
  {
    var claimed := RootFrom(hs, m, k, hs.leaf(content), below).value;
    i := 0;
    ClaimedRootWidth(hs, width, m, k, hs.leaf(content), below);
    RootPreimageHashes(hs, h, width, contents);
    x, y := Preimage(top, claimed), RootPreimage(hs, contents);
    if x == y {
      RightHalf(hs, h, width, contents, claimed, top);
      var j := Split(|contents|);
      i, x, y := MemberSound(hs, h, width, contents[j..], content, m, k, below);
      i := j + i;
    }
  }
}
