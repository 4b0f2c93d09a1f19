/**
  Merkle trees of section 2.1 of RFC 6962, their audit paths (2.1.1), and the
  sides on which a leaf's ancestors stand, in two forms: top down, by splitting
  at the largest power of two, and bottom up, bit by bit.
 */
module Merkle {
  import opened Basics
  import opened Bits

  const DIGEST_SIZE := 32

  type Digest = h: Bytes | |h| == DIGEST_SIZE witness seq(32, _ => 0)

  /** SHA-256, known only by the length of its digests. */
  type Sha = Bytes -> Digest

  function LeafPreimage(data: Bytes): Bytes { [0] + data }

  function NodePreimage(left: Bytes, right: Bytes): Bytes { [1] + left + right }

  function HashLeaf(sha: Sha, data: Bytes): Digest { sha(LeafPreimage(data)) }

  function HashChildren(sha: Sha, left: Bytes, right: Bytes): Digest { sha(NodePreimage(left, right)) }

  /** A pair of different messages with one digest. */
  predicate IsCollision(sha: Sha, pair: (Bytes, Bytes)) {
    pair.0 != pair.1 && sha(pair.0) == sha(pair.1)
  }

  /** Children of known total length and one known length can be read off a preimage. */
  lemma NodePreimageInjective(l: Bytes, r: Bytes, l': Bytes, r': Bytes)
    requires NodePreimage(l, r) == NodePreimage(l', r')
    requires |l| == |l'| || |r| == |r'|
    ensures l == l' && r == r'
  {
    var x, y := NodePreimage(l, r), NodePreimage(l', r');
    assert |x| == 1 + |l| + |r| && |y| == 1 + |l'| + |r'|;
    assert l == x[1..1 + |l|] && r == x[1 + |l|..];
    assert l' == y[1..1 + |l'|] && r' == y[1 + |l'|..];
  }

  // ----- The tree -----

  /** Double `p` while it stays below `n`. */
  function Doubled(n: nat, p: nat): (k: nat)
    requires 1 <= p < n
    ensures p <= k < n <= 2 * k
    decreases n - p
  {
    if 2 * p < n then Doubled(n, 2 * p) else p
  }

  /** The largest power of two smaller than `n`. */
  function SplitPoint(n: nat): (k: nat)
    requires 2 <= n
    ensures 1 <= k < n <= 2 * k
  {
    Doubled(n, 1)
  }

  /** MTH of section 2.1. */
  function TreeHash(sha: Sha, leaves: seq<Bytes>): Digest
    decreases |leaves|
  {
    if |leaves| == 0 then sha([])
    else if |leaves| == 1 then HashLeaf(sha, leaves[0])
    else
      var k := SplitPoint(|leaves|);
      HashChildren(sha, TreeHash(sha, leaves[..k]), TreeHash(sha, leaves[k..]))
  }

  lemma NodeCollision(sha: Sha, l: Bytes, r: Bytes, l': Bytes, r': Bytes)
    requires HashChildren(sha, l, r) == HashChildren(sha, l', r')
    requires NodePreimage(l, r) != NodePreimage(l', r')
    ensures IsCollision(sha, (NodePreimage(l, r), NodePreimage(l', r')))
  {
  }

  /** The hashes of the smallest trees, written out with the prefixes of section 2.1. */
  lemma KnownTrees(sha: Sha, a: Bytes, b: Bytes, c: Bytes)
    ensures TreeHash(sha, []) == sha([]) && TreeHash(sha, [a]) == sha([0] + a)
    ensures TreeHash(sha, [a, b]) == sha([1] + sha([0] + a) + sha([0] + b))
    ensures TreeHash(sha, [a, b, c]) == sha([1] + sha([1] + sha([0] + a) + sha([0] + b)) + sha([0] + c))
  {
    assert [a, b][..1] == [a] && [a, b][1..] == [b];
    assert TreeHash(sha, [a, b]) == HashChildren(sha, TreeHash(sha, [a]), TreeHash(sha, [b]));
    assert [a, b, c][..2] == [a, b] && [a, b, c][2..] == [c];
    assert SplitPoint(3) == 2;
  }

  lemma TreeHashOfOne(sha: Sha, leaf: Bytes)
    ensures TreeHash(sha, [leaf]) == HashLeaf(sha, leaf)
  {}

  lemma TreeHashStep(sha: Sha, leaves: seq<Bytes>)
    requires 2 <= |leaves|
    ensures var k := SplitPoint(|leaves|);
            TreeHash(sha, leaves) == HashChildren(sha, TreeHash(sha, leaves[..k]), TreeHash(sha, leaves[k..]))
  {}

  /** PATH of section 2.1.1, lowest sibling first. */
  function AuditPath(sha: Sha, m: nat, leaves: seq<Bytes>): seq<Bytes>
    requires m < |leaves|
    decreases |leaves|
  {
    if |leaves| == 1 then []
    else
      var k := SplitPoint(|leaves|);
      if m < k then AuditPath(sha, m, leaves[..k]) + [TreeHash(sha, leaves[k..])]
      else AuditPath(sha, m - k, leaves[k..]) + [TreeHash(sha, leaves[..k])]
  }

  // ----- Sides -----

  /** Which child of its parent the running hash is. */
  datatype Side = Left | Right

  /** Top down: the sides of leaf `m` among `n` leaves, lowest first. */
  function Sides(m: nat, n: nat): seq<Side>
    requires m < n
    decreases n
  {
    if n == 1 then []
    else
      var k := SplitPoint(n);
      if m < k then Sides(m, k) + [Left] else Sides(m - k, n - k) + [Right]
  }

  /** Bottom up: the same from index `fn` and last index `sn`. A last node without sibling moves up unhashed. */
  function SidesUp(fn: nat, sn: nat): seq<Side>
    requires fn <= sn
    decreases sn
  {
    if sn == 0 then []
    else if fn % 2 == 1 then [Right] + SidesUp(fn / 2, sn / 2)
    else if fn == sn then SidesUp(fn / 2, sn / 2)
    else [Left] + SidesUp(fn / 2, sn / 2)
  }

  function Join(sha: Sha, side: Side, h: Bytes, sibling: Bytes): Digest {
    match side
    case Left => HashChildren(sha, h, sibling)
    case Right => HashChildren(sha, sibling, h)
  }

  /** Hash from `h` up through the given siblings. */
  function Climb(sha: Sha, sides: seq<Side>, h: Bytes, siblings: seq<Bytes>): Bytes
    requires |sides| == |siblings|
  {
    if sides == [] then h
    else
      var n := |sides| - 1;
      Join(sha, sides[n], Climb(sha, sides[..n], h, siblings[..n]), siblings[n])
  }

  /** Climbing can equally start with the lowest step. */
  lemma {:induction false} ClimbFromBottom(sha: Sha, side: Side, sides: seq<Side>, h: Bytes, s: Bytes,
                                           siblings: seq<Bytes>)
    requires |sides| == |siblings|
    ensures Climb(sha, [side] + sides, h, [s] + siblings) == Climb(sha, sides, Join(sha, side, h, s), siblings)
  {
    var all, path := [side] + sides, [s] + siblings;
    var n := |all| - 1;
    if sides == [] {
      assert Climb(sha, all[..n], h, path[..n]) == h;
    } else {
      assert all[..n] == [side] + sides[..n - 1];
      assert path[..n] == [s] + siblings[..n - 1];
      ClimbFromBottom(sha, side, sides[..n - 1], h, s, siblings[..n - 1]);
    }
  }

  /** One more level on top. */
  lemma ClimbOneMore(sha: Sha, sides: seq<Side>, side: Side, h: Bytes, path: seq<Bytes>, sibling: Bytes)
    requires |sides| == |path|
    ensures Climb(sha, sides + [side], h, path + [sibling])
            == match side
               case Left => HashChildren(sha, Climb(sha, sides, h, path), sibling)
               case Right => HashChildren(sha, sibling, Climb(sha, sides, h, path))
  {
    var n := |sides|;
    assert (sides + [side])[..n] == sides && (path + [sibling])[..n] == path;
  }

  lemma ClimbIsDigest(sha: Sha, sides: seq<Side>, h: Bytes, siblings: seq<Bytes>)
    requires |sides| == |siblings|
    requires |h| == DIGEST_SIZE
    ensures |Climb(sha, sides, h, siblings)| == DIGEST_SIZE
  {
  }

  // ----- The two forms of the sides agree -----

  lemma {:induction false} DoubledHalves(n: nat, p: nat)
    requires 1 <= p && 2 * p < n
    ensures Doubled(n, 2 * p) == 2 * Doubled((n + 1) / 2, p)
    decreases n - p
  {
    if 4 * p < n {
      DoubledHalves(n, 2 * p);
    }
  }

  lemma SplitPointHalves(n: nat)
    requires 3 <= n
    ensures SplitPoint(n) == 2 * SplitPoint((n + 1) / 2)
  {
    DoubledHalves(n, 1);
  }

  /** The split point is a power of two, and no larger one is below `n`. */
  lemma {:induction false} SplitPointIsLargestPower(n: nat, i: nat)
    requires 2 <= n
    ensures exists j: nat :: SplitPoint(n) == Pow2(j)
    ensures Pow2(i) < n ==> Pow2(i) <= SplitPoint(n)
  {
    if n == 2 {
      assert SplitPoint(n) == Pow2(0);
    } else {
      SplitPointHalves(n);
      SplitPointIsLargestPower((n + 1) / 2, if i == 0 then 0 else i - 1);
      var j: nat :| SplitPoint((n + 1) / 2) == Pow2(j);
      assert SplitPoint(n) == Pow2(j + 1);
    }
  }

  /** Tree sizes between a power of two and the next have one split point. */
  lemma {:induction false} SplitPointStable(n: nat, n': nat)
    requires 2 <= n && 2 <= n'
    requires SplitPoint(n) < n' <= 2 * SplitPoint(n)
    ensures SplitPoint(n') == SplitPoint(n)
  {
    DoubledStable(n, n', 1);
  }

  lemma {:induction false} DoubledStable(n: nat, n': nat, p: nat)
    requires 1 <= p < n && p < n'
    requires Doubled(n, p) < n' <= 2 * Doubled(n, p)
    ensures Doubled(n', p) == Doubled(n, p)
    decreases n - p
  {
    if 2 * p < n {
      DoubledStable(n, n', 2 * p);
    }
  }

  lemma HalvesLeft(n: nat, k: nat)
    requires 2 <= n && 0 < k && k % 2 == 0
    ensures (n - 1) / 2 == (n + 1) / 2 - 1
    ensures (k - 1) / 2 == k / 2 - 1 && (k - 1) % 2 == 1
  {
  }

  lemma HalvesRight(n: nat, k: nat, m: nat)
    requires k <= m < n && k % 2 == 0
    ensures (n - 1) / 2 == (n + 1) / 2 - 1
    ensures (m - k) / 2 == m / 2 - k / 2 && (m - k) % 2 == m % 2
    ensures (n - 1 - k) / 2 == (n + 1) / 2 - 1 - k / 2
  {
  }

  /** Bottom-up sides of a leaf left of the split: those of the left subtree, then `Left`. */
  lemma {:induction false} SidesUpLeftOfSplit(m: nat, n: nat)
    requires 2 <= n && m < SplitPoint(n)
    ensures SidesUp(m, n - 1) == SidesUp(m, SplitPoint(n) - 1) + [Left]
  {
    if n > 2 {
      SplitPointHalves(n);
      HalvesLeft(n, SplitPoint(n));
      SidesUpLeftOfSplit(m / 2, (n + 1) / 2);
    }
  }

  /** Bottom-up sides of a leaf right of the split: those of the right subtree, then `Right`. */
  lemma {:induction false} SidesUpRightOfSplit(m: nat, n: nat)
    requires 2 <= n && SplitPoint(n) <= m < n
    ensures SidesUp(m, n - 1) == SidesUp(m - SplitPoint(n), n - 1 - SplitPoint(n)) + [Right]
  {
    if n > 2 {
      SplitPointHalves(n);
      HalvesRight(n, SplitPoint(n), m);
      SidesUpRightOfSplit(m / 2, (n + 1) / 2);
    }
  }

  /** Splitting at the largest power of two and shifting bit by bit find the same sides. */
  lemma {:induction false} SidesAgree(m: nat, n: nat)
    requires m < n
    ensures Sides(m, n) == SidesUp(m, n - 1)
    decreases n
  {
    if n > 1 {
      var k := SplitPoint(n);
      if m < k {
        SidesAgree(m, k);
        SidesUpLeftOfSplit(m, n);
      } else {
        SidesAgree(m - k, n - k);
        SidesUpRightOfSplit(m, n);
      }
    }
  }

  /** Only the root of a one-leaf tree has no siblings above it. */
  lemma SidesUpEmpty(fn: nat, sn: nat)
    requires fn <= sn
    ensures SidesUp(fn, sn) == [] <==> sn == 0
    decreases sn
  {
  }

  // ----- The bit rule -----

  /** The last node of a tree is a right child wherever it has a sibling: at its set bits. */
  lemma {:induction false} SidesUpOfLast(fn: nat)
    ensures |SidesUp(fn, fn)| == PopCount(fn)
    ensures forall i :: 0 <= i < |SidesUp(fn, fn)| ==> SidesUp(fn, fn)[i] == Right
  {
    if fn != 0 {
      SidesUpOfLast(fn / 2);
    }
  }

  /** The number of sides: `inner` levels below the agreement of `fn` and `sn`, set bits above it. */
  lemma {:induction false} SidesUpLength(fn: nat, sn: nat)
    requires fn <= sn
    ensures var inner := Len(Xor(fn, sn));
            |SidesUp(fn, sn)| == inner + PopCount(Shr(fn, inner))
    decreases sn
  {
    XorZero(fn, sn);
    if fn == sn {
      SidesUpOfLast(fn);
    } else {
      LenXorStep(fn, sn);
      SidesUpLength(fn / 2, sn / 2);
    }
  }

  /** Below the agreement of `fn` and `sn` the bits of `fn` decide; above it every side is right. */
  lemma {:induction false} SidesUpByBits(fn: nat, sn: nat, i: nat)
    requires fn <= sn && i < |SidesUp(fn, sn)|
    ensures SidesUp(fn, sn)[i] == Left <==> i < Len(Xor(fn, sn)) && Bit(fn, i) == 0
    decreases sn
  {
    XorZero(fn, sn);
    if fn == sn {
      SidesUpOfLast(fn);
    } else {
      LenXorStep(fn, sn);
      if i > 0 {
        SidesUpByBits(fn / 2, sn / 2, i - 1);
      }
    }
  }
}
