/**
 The verifiers of sections 2.1.3.2 and 2.1.4.2 of RFC 9162 walk a proof from
 the bottom, driven by the bits of two node numbers. The proof generators
 split from the top. This module relates the two readings for every size.
 */
module MerkleWalk {
  import opened Prelude
  import opened Powers
  import opened Merkle

  /** What a walk carries: the hash of the old tree and that of the new tree. */
  datatype Heads = Heads(first: Digest, second: Digest)

  // ---- bottom up -----------------------------------------------------------

  /** Drop the trailing zeros of `fn`, shifting `sn` along. */
  function StripZeros(fn: nat, sn: nat): (nat, nat)
    decreases fn
  {
    if fn % 2 == 0 && fn != 0 then StripZeros(fn / 2, sn / 2) else (fn, sn)
  }

  /** Drop the trailing ones of `fn`, shifting `sn` along. */
  function StripOnes(fn: nat, sn: nat): (nat, nat)
    decreases fn
  {
    if fn % 2 == 1 then StripOnes(fn / 2, sn / 2) else (fn, sn)
  }

  /** The walk shared by the two verifiers; an inclusion check reads only `second`. */
  function Climb(hs: Hasher, fn: nat, sn: nat, h: Heads, path: seq<Digest>): Option<Heads>
    decreases |path|
  {
    if path == [] then if sn == 0 then Some(h) else None
    else if sn == 0 then None
    else if fn % 2 == 1 || fn == sn then
      var (f, s) := if fn % 2 == 0 then StripZeros(fn, sn) else (fn, sn);
      Climb(hs, f / 2, s / 2, Heads(hs.node(path[0], h.first), hs.node(path[0], h.second)), path[1..])
    else
      Climb(hs, fn / 2, sn / 2, Heads(h.first, hs.node(h.second, path[0])), path[1..])
  }

  // ---- top down ------------------------------------------------------------

  /** The root that an audit path claims, reading the path from its top end. */
  function RootFrom(hs: Hasher, m: nat, n: nat, leaf: Digest, path: seq<Digest>): Option<Digest>
    requires m < n
    decreases n
  {
    if n == 1 then if path == [] then Some(leaf) else None
    else if path == [] then None
    else
      var k, top, below := Split(n), path[|path| - 1], path[..|path| - 1];
      if m < k then
        match RootFrom(hs, m, k, leaf, below)
        case None => None
        case Some(r) => Some(hs.node(r, top))
      else
        match RootFrom(hs, m - k, n - k, leaf, below)
        case None => None
        case Some(r) => Some(hs.node(top, r))
  }

  /** The two roots that a consistency path claims, reading the path from its top end. */
  function HeadsFrom(hs: Hasher, m: nat, n: nat, path: seq<Digest>): Option<Heads>
    requires 0 < m <= n
    decreases n
  {
    if path == [] then None
    else if m == n then if |path| == 1 then Some(Heads(path[0], path[0])) else None
    else
      var k, top, below := Split(n), path[|path| - 1], path[..|path| - 1];
      if m <= k then
        match HeadsFrom(hs, m, k, below)
        case None => None
        case Some(h) => Some(Heads(h.first, hs.node(h.second, top)))
      else
        match HeadsFrom(hs, m - k, n - k, below)
        case None => None
        case Some(h) => Some(Heads(hs.node(top, h.first), hs.node(top, h.second)))
  }

  // ---- the two readings agree ----------------------------------------------

  function UnderLeft(hs: Hasher, o: Option<Heads>, top: Digest): Option<Heads> {
    match o
    case None => None
    case Some(h) => Some(Heads(h.first, hs.node(h.second, top)))
  }

  function UnderRight(hs: Hasher, o: Option<Heads>, top: Digest): Option<Heads> {
    match o
    case None => None
    case Some(h) => Some(Heads(hs.node(top, h.first), hs.node(top, h.second)))
  }

  /**
   Under the left child of a tree whose right-most leaf lies beyond `Pow2(j)`,
   the walk decides as in the perfect tree of `Pow2(j)` leaves, then takes one
   more step.
   */
  lemma {:induction false} ClimbLeft(
    hs: Hasher, j: nat, fn: nat, sn: nat, h: Heads, below: seq<Digest>, top: Digest)
    requires fn < Pow2(j) <= sn < 2 * Pow2(j)
    ensures Climb(hs, fn, sn, h, below + [top])
         == UnderLeft(hs, Climb(hs, fn, Pow2(j) - 1, h, below), top)
    decreases |below|
  {
    var path := below + [top];
    if below == [] {
      assert path[1..] == [];
    } else {
      assert path[0] == below[0] && path[1..] == below[1..] + [top];
      if j > 0 {
        assert (Pow2(j) - 1) / 2 == Pow2(j - 1) - 1;
        var h' := if fn % 2 == 1
          then Heads(hs.node(path[0], h.first), hs.node(path[0], h.second))
          else Heads(h.first, hs.node(h.second, path[0]));
        ClimbLeft(hs, j - 1, fn / 2, sn / 2, h', below[1..], top);
      }
    }
  }

  lemma {:induction false} StripZerosPow2(j: nat)
    ensures StripZeros(Pow2(j), Pow2(j)) == (1, 1)
  {
    if j > 0 {
      StripZerosPow2(j - 1);
    }
  }

  /** A common top bit does not change how many zeros are dropped below it. */
  lemma {:induction false} StripZerosTop(j: nat, fn: nat, sn: nat) returns (j': nat)
    requires 0 < fn <= sn < Pow2(j)
    ensures 1 <= j' <= j
    ensures var (f, s) := StripZeros(fn, sn);
      && f <= s < Pow2(j')
      && StripZeros(fn + Pow2(j), sn + Pow2(j)) == (f + Pow2(j'), s + Pow2(j'))
  {
    if fn % 2 == 0 {
      j' := StripZerosTop(j - 1, fn / 2, sn / 2);
      HalfTop(j, fn);
      HalfTop(j, sn);
    } else {
      j' := j;
      assert j > 0;
    }
  }

  /** The last step of a walk along the right edge: it ends iff the right subtree was done. */
  lemma ClimbRightLast(hs: Hasher, j: nat, fn: nat, sn: nat, h: Heads, top: Digest)
    requires fn <= sn < Pow2(j)
    ensures Climb(hs, fn + Pow2(j), sn + Pow2(j), h, [top])
         == if sn == 0 then Some(Heads(hs.node(top, h.first), hs.node(top, h.second))) else None
  {
    if sn == 0 {
      StripZerosPow2(j);
    } else if fn == sn && fn % 2 == 0 {
      var j' := StripZerosTop(j, fn, sn);
      var (f, s) := StripZeros(fn, sn);
      assert (s + Pow2(j')) / 2 > 0;
    } else {
      assert (sn + Pow2(j)) / 2 > 0;
    }
  }

  /** Under the right child, dropping the common top bit gives the walk of the right subtree. */
  lemma {:induction false} ClimbRight(
    hs: Hasher, j: nat, fn: nat, sn: nat, h: Heads, below: seq<Digest>, top: Digest)
    requires fn <= sn < Pow2(j)
    ensures Climb(hs, fn + Pow2(j), sn + Pow2(j), h, below + [top])
         == UnderRight(hs, Climb(hs, fn, sn, h, below), top)
    decreases |below|, 1
  {
    if below == [] {
      assert below + [top] == [top];
      ClimbRightLast(hs, j, fn, sn, h, top);
    } else if sn == 0 {
      StripZerosPow2(j);
    } else {
      ClimbRightStep(hs, j, fn, sn, h, below, top);
    }
  }

  lemma HalfTop(j: nat, n: nat)
    requires j > 0
    ensures (n + Pow2(j)) / 2 == n / 2 + Pow2(j - 1) && (n + Pow2(j)) % 2 == n % 2
  {
  }

  lemma {:induction false} ClimbRightStep(
    hs: Hasher, j: nat, fn: nat, sn: nat, h: Heads, below: seq<Digest>, top: Digest)
    requires fn <= sn < Pow2(j)
    requires sn != 0 && below != []
    ensures Climb(hs, fn + Pow2(j), sn + Pow2(j), h, below + [top])
         == UnderRight(hs, Climb(hs, fn, sn, h, below), top)
    decreases |below|, 0, 1
  {
    assert j > 0;
    if fn % 2 == 0 && fn == sn {
      ClimbRightStrip(hs, j, fn, h, below, top);
    } else {
      HalfTop(j, fn);
      HalfTop(j, sn);
      ClimbRightHalf(hs, j, fn, sn, fn + Pow2(j), sn + Pow2(j), h, below, top);
    }
  }

  lemma {:induction false} ClimbRightStrip(hs: Hasher, j: nat, n: nat, h: Heads, below: seq<Digest>, top: Digest)
    requires 0 < n < Pow2(j) && n % 2 == 0 && below != []
    ensures Climb(hs, n + Pow2(j), n + Pow2(j), h, below + [top])
         == UnderRight(hs, Climb(hs, n, n, h, below), top)
    decreases |below|, 0, 0
  {
    var path := below + [top];
    assert path[0] == below[0] && path[1..] == below[1..] + [top];
    var up := Heads(hs.node(path[0], h.first), hs.node(path[0], h.second));
    var j' := StripZerosTop(j, n, n);
    var (f, s) := StripZeros(n, n);
    HalfTop(j', f);
    HalfTop(j', s);
    ClimbRight(hs, j' - 1, f / 2, s / 2, up, below[1..], top);
  }

  lemma {:induction false} ClimbRightHalf(hs: Hasher, j: nat, fn: nat, sn: nat, fn': nat, sn': nat, h: Heads,
                                          below: seq<Digest>, top: Digest)
    requires 0 < j && fn <= sn < Pow2(j) && sn != 0 && below != [] && (fn % 2 == 1 || fn != sn)
    requires fn' == fn + Pow2(j) && fn' / 2 == fn / 2 + Pow2(j - 1) && fn' % 2 == fn % 2
    requires sn' == sn + Pow2(j) && sn' / 2 == sn / 2 + Pow2(j - 1)
    ensures Climb(hs, fn', sn', h, below + [top]) == UnderRight(hs, Climb(hs, fn, sn, h, below), top)
    decreases |below|, 0, 0
  {
    var path := below + [top];
    assert path[0] == below[0] && path[1..] == below[1..] + [top];
    var h' := if fn % 2 == 1 then Heads(hs.node(path[0], h.first), hs.node(path[0], h.second))
              else Heads(h.first, hs.node(h.second, path[0]));
    ClimbRight(hs, j - 1, fn / 2, sn / 2, h', below[1..], top);
  }

  function SecondOf(o: Option<Heads>): Option<Digest> {
    match o
    case None => None
    case Some(h) => Some(h.second)
  }

  /** The walk of the inclusion verifier. */
  function LeafClimb(hs: Hasher, m: nat, n: nat, leaf: Digest, path: seq<Digest>): Option<Digest>
    requires m < n
  {
    SecondOf(Climb(hs, m, n - 1, Heads(leaf, leaf), path))
  }

  lemma LeafClimbLeft(hs: Hasher, m: nat, n: nat, leaf: Digest, below: seq<Digest>, top: Digest)
    requires n > 1 && m < Split(n)
    ensures LeafClimb(hs, m, n, leaf, below + [top])
         == match LeafClimb(hs, m, Split(n), leaf, below) case None => None case Some(r) => Some(hs.node(r, top))
  {
    ClimbLeft(hs, SplitExp(n), m, n - 1, Heads(leaf, leaf), below, top);
  }

  lemma LeafClimbRight(hs: Hasher, m: nat, n: nat, leaf: Digest, below: seq<Digest>, top: Digest)
    requires n > 1 && Split(n) <= m < n
    ensures LeafClimb(hs, m, n, leaf, below + [top])
         == match LeafClimb(hs, m - Split(n), n - Split(n), leaf, below)
            case None => None
            case Some(r) => Some(hs.node(top, r))
  {
    var k := Split(n);
    ClimbRight(hs, SplitExp(n), m - k, n - k - 1, Heads(leaf, leaf), below, top);
    assert m - k + Pow2(SplitExp(n)) == m && n - k - 1 + Pow2(SplitExp(n)) == n - 1;
  }

  /** The inclusion walk computes exactly the root that the path claims. */
  lemma {:induction false} ClimbIsRootFrom(hs: Hasher, m: nat, n: nat, leaf: Digest, path: seq<Digest>)
    requires m < n
    ensures LeafClimb(hs, m, n, leaf, path) == RootFrom(hs, m, n, leaf, path)
    decreases n
  {
    if n > 1 && path != [] {
      var top, below := path[|path| - 1], path[..|path| - 1];
      assert path == below + [top];
      if m < Split(n) {
        LeafClimbLeft(hs, m, n, leaf, below, top);
        ClimbIsRootFrom(hs, m, Split(n), leaf, below);
      } else {
        LeafClimbRight(hs, m, n, leaf, below, top);
        ClimbIsRootFrom(hs, m - Split(n), n - Split(n), leaf, below);
      }
    }
  }

  /** Dropping trailing ones keeps `fn` below and `sn` at or above the same power of two. */
  lemma {:induction false} StripOnesLeft(j: nat, fn: nat, sn: nat) returns (j': nat)
    requires fn < Pow2(j) <= sn < 2 * Pow2(j)
    ensures var (f, s) := StripOnes(fn, sn);
      && f < Pow2(j') <= s < 2 * Pow2(j')
      && StripOnes(fn, Pow2(j) - 1) == (f, Pow2(j') - 1)
  {
    if fn % 2 == 1 {
      assert (Pow2(j) - 1) / 2 == Pow2(j - 1) - 1;
      j' := StripOnesLeft(j - 1, fn / 2, sn / 2);
    } else {
      j' := j;
    }
  }

  lemma {:induction false} StripOnesRight(j: nat, fn: nat, sn: nat) returns (j': nat)
    requires fn < sn < Pow2(j)
    ensures var (f, s) := StripOnes(fn, sn);
      && f <= s < Pow2(j')
      && StripOnes(fn + Pow2(j), sn + Pow2(j)) == (f + Pow2(j'), s + Pow2(j'))
  {
    assert j > 0;
    if fn % 2 == 1 {
      HalfTop(j, fn);
      HalfTop(j, sn);
      assert fn / 2 < sn / 2;
      j' := StripOnesRight(j - 1, fn / 2, sn / 2);
    } else {
      j' := j;
    }
  }

  lemma {:induction false} StripOnesAllOnes(j: nat)
    ensures StripOnes(Pow2(j) - 1, Pow2(j) - 1) == (0, 0)
  {
    if j > 0 {
      assert (Pow2(j) - 1) / 2 == Pow2(j - 1) - 1;
      StripOnesAllOnes(j - 1);
    }
  }

  lemma {:induction false} HeadsFromLeft(hs: Hasher, m: nat, n: nat, below: seq<Digest>, top: Digest)
    requires n > 1 && 0 < m <= Split(n)
    ensures HeadsFrom(hs, m, n, below + [top]) == UnderLeft(hs, HeadsFrom(hs, m, Split(n), below), top)
  {
    assert (below + [top])[..|below|] == below;
  }

  lemma {:induction false} HeadsFromRight(hs: Hasher, m: nat, n: nat, below: seq<Digest>, top: Digest)
    requires n > 1 && Split(n) < m < n
    ensures HeadsFrom(hs, m, n, below + [top])
         == UnderRight(hs, HeadsFrom(hs, m - Split(n), n - Split(n), below), top)
  {
    assert (below + [top])[..|below|] == below;
  }

  /** The walk of the consistency verifier, from its first node on. */
  function StartClimb(hs: Hasher, m: nat, n: nat, path: seq<Digest>): Option<Heads>
    requires 0 < m <= n && path != []
  {
    var (f, s) := StripOnes(m - 1, n - 1);
    Climb(hs, f, s, Heads(path[0], path[0]), path[1..])
  }

  lemma StartClimbLeft(hs: Hasher, m: nat, n: nat, below: seq<Digest>, top: Digest)
    requires n > 1 && 0 < m <= Split(n) && below != []
    ensures StartClimb(hs, m, n, below + [top]) == UnderLeft(hs, StartClimb(hs, m, Split(n), below), top)
  {
    assert (below + [top])[1..] == below[1..] + [top];
    var (f, s) := StripOnes(m - 1, n - 1);
    var e' := StripOnesLeft(SplitExp(n), m - 1, n - 1);
    ClimbLeft(hs, e', f, s, Heads(below[0], below[0]), below[1..], top);
  }

  lemma StripOnesSplit(m: nat, n: nat) returns (j: nat)
    requires n > 1 && Split(n) < m < n
    ensures var (f, s) := StripOnes(m - Split(n) - 1, n - Split(n) - 1);
      && f <= s < Pow2(j)
      && StripOnes(m - 1, n - 1) == (f + Pow2(j), s + Pow2(j))
  {
    var fn, sn := m - Split(n) - 1, n - Split(n) - 1;
    assert fn + Pow2(SplitExp(n)) == m - 1 && sn + Pow2(SplitExp(n)) == n - 1;
    j := StripOnesRight(SplitExp(n), fn, sn);
  }

  lemma StartClimbRight(hs: Hasher, m: nat, n: nat, below: seq<Digest>, top: Digest)
    requires n > 1 && Split(n) < m < n && below != []
    ensures StartClimb(hs, m, n, below + [top])
         == UnderRight(hs, StartClimb(hs, m - Split(n), n - Split(n), below), top)
  {
    assert (below + [top])[1..] == below[1..] + [top];
    var j := StripOnesSplit(m, n);
    var (f, s) := StripOnes(m - Split(n) - 1, n - Split(n) - 1);
    ClimbRight(hs, j, f, s, Heads(below[0], below[0]), below[1..], top);
  }

  lemma {:induction false} StripOnesStrict(fn: nat, sn: nat)
    requires fn < sn
    ensures StripOnes(fn, sn).0 < StripOnes(fn, sn).1
    decreases fn
  {
    if fn % 2 == 1 {
      StripOnesStrict(fn / 2, sn / 2);
    }
  }

  /** A path of one node proves nothing about two different trees. */
  lemma StartClimbShort(hs: Hasher, m: nat, n: nat, top: Digest)
    requires 0 < m < n
    ensures StartClimb(hs, m, n, [top]) == None
    ensures HeadsFrom(hs, m, n, [top]) == None
  {
    StripOnesStrict(m - 1, n - 1);
    assert [top][1..] == [] && [top][..0] == [];
  }

  /** The consistency walk computes exactly the two roots that the path claims. */
  lemma {:induction false} ClimbIsHeadsFrom(hs: Hasher, m: nat, n: nat, path: seq<Digest>)
    requires 0 < m <= n && path != []
    requires m < n || IsPow2(m)
    ensures StartClimb(hs, m, n, path) == HeadsFrom(hs, m, n, path)
    decreases n
  {
    var top, below := path[|path| - 1], path[..|path| - 1];
    assert path == below + [top];
    if m == n {
      var e := IsPow2Exp(m);
      StripOnesAllOnes(e);
    } else if below == [] {
      assert path == [top];
      StartClimbShort(hs, m, n, top);
    } else if m <= Split(n) {
      StartClimbLeft(hs, m, n, below, top);
      HeadsFromLeft(hs, m, n, below, top);
      Pow2IsPow2(SplitExp(n));
      ClimbIsHeadsFrom(hs, m, Split(n), below);
    } else {
      StartClimbRight(hs, m, n, below, top);
      HeadsFromRight(hs, m, n, below, top);
      ClimbIsHeadsFrom(hs, m - Split(n), n - Split(n), below);
    }
  }
}
