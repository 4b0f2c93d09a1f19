/**
  Inclusion proofs: the verifier of section 2.1.3.2 of RFC 9162, the hash chain
  that `rekor-cli verify` prints, and what both say about the tree.
 */
module Inclusion {
  import opened Basics
  import opened Bits
  import opened Merkle

  /** What an accepted inclusion proof means: the right number of siblings, hashing up to the root. */
  predicate Accepts(sha: Sha, index: nat, size: nat, leafHash: Bytes, proof: seq<Bytes>, root: Bytes) {
    && index < size
    && |leafHash| == DIGEST_SIZE
    && |proof| == |Sides(index, size)|
    && Climb(sha, Sides(index, size), leafHash, proof) == root
  }

  /** What is left to check after some siblings: the rest of the path ends at the root. */
  predicate AcceptsUp(sha: Sha, fn: nat, sn: nat, h: Bytes, proof: seq<Bytes>, root: Bytes)
    requires fn <= sn
  {
    |proof| == |SidesUp(fn, sn)| && Climb(sha, SidesUp(fn, sn), h, proof) == root
  }

  lemma AcceptsUpStep(sha: Sha, fn: nat, sn: nat, h: Bytes, proof: seq<Bytes>, root: Bytes)
    requires fn <= sn && 0 < sn && proof != []
    requires fn % 2 == 1 || fn < sn
    ensures var side := if fn % 2 == 1 then Right else Left;
            AcceptsUp(sha, fn, sn, h, proof, root)
            <==> AcceptsUp(sha, fn / 2, sn / 2, Join(sha, side, h, proof[0]), proof[1..], root)
  {
    var side := if fn % 2 == 1 then Right else Left;
    var rest := SidesUp(fn / 2, sn / 2);
    assert SidesUp(fn, sn) == [side] + rest;
    assert proof == [proof[0]] + proof[1..];
    if |rest| == |proof[1..]| {
      ClimbFromBottom(sha, side, rest, h, proof[0], proof[1..]);
    }
  }

  /** `proof.VerifyInclusion`: the shifting loop of section 2.1.3.2 of RFC 9162. */
  method VerifyInclusion(sha: Sha, index: nat, size: nat, leafHash: Bytes, proof: seq<Bytes>, root: Bytes)
    returns (ok: bool)
    ensures ok == Accepts(sha, index, size, leafHash, proof, root)
  {
    if index >= size || |leafHash| != DIGEST_SIZE {
      return false;
    }
    var fn: nat, sn: nat, r: Bytes := index, size - 1, leafHash;
    SidesAgree(index, size);
    assert proof[0..] == proof;
    for i := 0 to |proof|
      invariant fn <= sn
      invariant Accepts(sha, index, size, leafHash, proof, root) <==> AcceptsUp(sha, fn, sn, r, proof[i..], root)
    {
      if sn == 0 {
        return false;
      }
      var p := proof[i];
      assert proof[i..][0] == p && proof[i..][1..] == proof[i + 1..];
      if fn % 2 == 1 || fn == sn {
        while fn % 2 == 0
          invariant fn <= sn && 0 < sn && (fn % 2 == 1 || fn == sn)
          invariant AcceptsUp(sha, fn, sn, r, proof[i..], root)
                    <==> Accepts(sha, index, size, leafHash, proof, root)
          decreases fn
        {
          fn, sn := fn / 2, sn / 2;
        }
        AcceptsUpStep(sha, fn, sn, r, proof[i..], root);
        r := HashChildren(sha, p, r);
      } else {
        AcceptsUpStep(sha, fn, sn, r, proof[i..], root);
        r := HashChildren(sha, r, p);
      }
      fn, sn := fn / 2, sn / 2;
    }
    SidesUpEmpty(fn, sn);
    ok := sn == 0 && r == root;
  }

  // ----- The printed chain -----

  /** The direction rule of the printed chain at level `i`. */
  function ChainSide(index: nat, inner: nat, i: nat): Side {
    if i < inner && Bit(index, i) == 0 then Left else Right
  }

  /** The chain after its first `i` siblings, by the direction rule alone. */
  function Chain(sha: Sha, index: nat, inner: nat, leafHash: Bytes, hashes: seq<Bytes>): Bytes {
    if hashes == [] then leafHash
    else
      var n := |hashes| - 1;
      Join(sha, ChainSide(index, inner, n), Chain(sha, index, inner, leafHash, hashes[..n]), hashes[n])
  }

  /** `inner := bits.Len64(uint64(v.Index ^ (v.Size - 1)))`, with the subtraction wrapping around. */
  function ChainInner(index: nat, size: nat): nat
    requires IsUint64(index) && IsUint64(size)
  {
    Len(Xor(index, Uint64(size - 1)))
  }

  /** Siblings below the fork with the last leaf, then one for each set bit above it. */
  function ProofLength(index: nat, inner: nat): nat {
    inner + PopCount(Shr(index, inner))
  }

  /** The first levels of the chain turn as the tree does. */
  lemma {:induction false} ChainIsClimb(sha: Sha, index: nat, size: nat, h: Bytes, hashes: seq<Bytes>)
    requires index < size && |hashes| <= |Sides(index, size)|
    ensures Chain(sha, index, Len(Xor(index, size - 1)), h, hashes)
            == Climb(sha, Sides(index, size)[..|hashes|], h, hashes)
  {
    if hashes != [] {
      var n := |hashes| - 1;
      SidesAgree(index, size);
      SidesUpByBits(index, size - 1, n);
      ChainIsClimb(sha, index, size, h, hashes[..n]);
      assert Sides(index, size)[..n + 1][..n] == Sides(index, size)[..n];
    }
  }

  lemma SidesCount(index: nat, size: nat)
    requires index < size
    ensures |Sides(index, size)| == ProofLength(index, Len(Xor(index, size - 1)))
  {
    SidesAgree(index, size);
    SidesUpLength(index, size - 1);
  }

  lemma ChainInnerInRange(index: nat, size: nat)
    requires index < size < TWO_64
    ensures ChainInner(index, size) == Len(Xor(index, size - 1))
  {
    assert Uint64(size - 1) == size - 1;
  }

  /** With a proof of the right length, the printed chain refines the shifting verifier. */
  lemma ChainRefinesVerifier(sha: Sha, index: nat, size: nat, leafHash: Digest, proof: seq<Bytes>, root: Bytes)
    requires IsUint64(index) && IsUint64(size)
    ensures Accepts(sha, index, size, leafHash, proof, root)
            <==> && index < size
                 && |proof| == ProofLength(index, ChainInner(index, size))
                 && Chain(sha, index, ChainInner(index, size), leafHash, proof) == root
  {
    if index < size {
      ChainInnerInRange(index, size);
      SidesCount(index, size);
      if |proof| == |Sides(index, size)| {
        ChainIsClimb(sha, index, size, leafHash, proof);
        assert Sides(index, size)[..|proof|] == Sides(index, size);
      }
    }
  }

  // ----- Completeness -----

  /** One level from the root down: the half that holds the leaf, and its index there. */
  function Half(m: nat, leaves: seq<Bytes>): (half: seq<Bytes>)
    requires m < |leaves| && 2 <= |leaves|
    ensures |half| < |leaves|
  {
    if m < SplitPoint(|leaves|) then leaves[..SplitPoint(|leaves|)] else leaves[SplitPoint(|leaves|)..]
  }

  function IndexInHalf(m: nat, leaves: seq<Bytes>): (i: nat)
    requires m < |leaves| && 2 <= |leaves|
    ensures i < |Half(m, leaves)| && Half(m, leaves)[i] == leaves[m]
  {
    if m < SplitPoint(|leaves|) then m else m - SplitPoint(|leaves|)
  }

  lemma SidesStep(m: nat, n: nat)
    requires m < n && 2 <= n
    ensures var k := SplitPoint(n);
            Sides(m, n) == (if m < k then Sides(m, k) + [Left] else Sides(m - k, n - k) + [Right])
  {}

  lemma AuditPathInHalf(sha: Sha, m: nat, leaves: seq<Bytes>)
    requires m < |leaves| && 2 <= |leaves|
    ensures var (half, i, k) := (Half(m, leaves), IndexInHalf(m, leaves), SplitPoint(|leaves|));
            var sibling := TreeHash(sha, if m < k then leaves[k..] else leaves[..k]);
            && AuditPath(sha, m, leaves) == AuditPath(sha, i, half) + [sibling]
            && TreeHash(sha, half) == TreeHash(sha, if m < k then leaves[..k] else leaves[k..])
  {
    hide TreeHash, SplitPoint;
  }

  lemma AuditPathBase(sha: Sha, leaves: seq<Bytes>)
    requires |leaves| == 1
    ensures Sides(0, 1) == [] && AuditPath(sha, 0, leaves) == []
    ensures Climb(sha, [], HashLeaf(sha, leaves[0]), []) == TreeHash(sha, leaves)
  {
  }

  lemma {:induction false} AuditPathClimbs(sha: Sha, m: nat, leaves: seq<Bytes>)
    requires m < |leaves|
    ensures |AuditPath(sha, m, leaves)| == |Sides(m, |leaves|)|
    ensures Climb(sha, Sides(m, |leaves|), HashLeaf(sha, leaves[m]), AuditPath(sha, m, leaves))
            == TreeHash(sha, leaves)
    decreases |leaves|
  {
    hide TreeHash, HashChildren, HashLeaf, SplitPoint, Climb, Sides, AuditPath;
    if |leaves| == 1 {
      AuditPathBase(sha, leaves);
    } else {
      var (half, i, k) := (Half(m, leaves), IndexInHalf(m, leaves), SplitPoint(|leaves|));
      AuditPathInHalf(sha, m, leaves);
      SidesStep(m, |leaves|);
      TreeHashStep(sha, leaves);
      AuditPathClimbs(sha, i, half);
      var (side, sibling) := if m < k then (Left, TreeHash(sha, leaves[k..])) else (Right, TreeHash(sha, leaves[..k]));
      ClimbOneMore(sha, Sides(i, |half|), side, HashLeaf(sha, leaves[m]), AuditPath(sha, i, half), sibling);
    }
  }

  /** Every audit path of every non-empty log is accepted, and the printed chain ends at the tree hash. */
  lemma Completeness(sha: Sha, m: nat, leaves: seq<Bytes>)
    requires m < |leaves| < TWO_64
    ensures var (n, leafHash, path) := (|leaves|, HashLeaf(sha, leaves[m]), AuditPath(sha, m, leaves));
            && Accepts(sha, m, n, leafHash, path, TreeHash(sha, leaves))
            && Chain(sha, m, ChainInner(m, n), leafHash, path) == TreeHash(sha, leaves)
            && |path| == ProofLength(m, ChainInner(m, n))
  {
    AuditPathClimbs(sha, m, leaves);
    ChainRefinesVerifier(sha, m, |leaves|, HashLeaf(sha, leaves[m]), AuditPath(sha, m, leaves), TreeHash(sha, leaves));
  }

  // ----- Soundness -----

  /**
    Two messages read off an accepted proof: the first place above the leaves, from the
    root down, where the proof and the tree feed different bytes to the hash.
   */
  function NodePair(sha: Sha, m: nat, leaves: seq<Bytes>, h: Bytes, proof: seq<Bytes>): (Bytes, Bytes)
    requires m < |leaves| && |proof| == |Sides(m, |leaves|)|
    decreases |leaves|
  {
    if |leaves| == 1 then ([], [])
    else
      var k, n := SplitPoint(|leaves|), |proof| - 1;
      var sides := Sides(m, |leaves|);
      var below := Climb(sha, sides[..n], h, proof[..n]);
      var claimed := if m < k then NodePreimage(below, proof[n]) else NodePreimage(proof[n], below);
      var actual := NodePreimage(TreeHash(sha, leaves[..k]), TreeHash(sha, leaves[k..]));
      if claimed != actual then (claimed, actual)
      else
        assert sides[..n] == if m < k then Sides(m, k) else Sides(m - k, |leaves| - k);
        if m < k then NodePair(sha, m, leaves[..k], h, proof[..n])
        else NodePair(sha, m - k, leaves[k..], h, proof[..n])
  }

  lemma NodePairStep(sha: Sha, m: nat, leaves: seq<Bytes>, h: Bytes, proof: seq<Bytes>)
    requires m < |leaves| && 2 <= |leaves| && |proof| == |Sides(m, |leaves|)|
    ensures var (half, i, n, k) := (Half(m, leaves), IndexInHalf(m, leaves), |proof| - 1, SplitPoint(|leaves|));
            && n == |Sides(i, |half|)|
            && var below := Climb(sha, Sides(i, |half|), h, proof[..n]);
               var (l, r) := if m < k then (below, proof[n]) else (proof[n], below);
               var actual := NodePreimage(TreeHash(sha, leaves[..k]), TreeHash(sha, leaves[k..]));
               && Climb(sha, Sides(m, |leaves|), h, proof) == HashChildren(sha, l, r)
               && NodePair(sha, m, leaves, h, proof)
                  == if NodePreimage(l, r) != actual then (NodePreimage(l, r), actual)
                     else NodePair(sha, i, half, h, proof[..n])
  {
    hide TreeHash, HashChildren, NodePreimage, SplitPoint;
    var n := |proof| - 1;
    SidesStep(m, |leaves|);
    assert Sides(m, |leaves|)[..n] == Sides(IndexInHalf(m, leaves), |Half(m, leaves)|);
  }

  /**
    A hash accepted against the tree hash of `leaves` is the hash of the very leaf stored at
    that index, and the proof is its one true audit path, or it hands over a hash collision.
   */
  lemma {:induction false} HashSoundness(sha: Sha, m: nat, leaves: seq<Bytes>, h: Bytes, proof: seq<Bytes>)
    requires Accepts(sha, m, |leaves|, h, proof, TreeHash(sha, leaves))
    ensures || (h == HashLeaf(sha, leaves[m]) && proof == AuditPath(sha, m, leaves))
            || IsCollision(sha, NodePair(sha, m, leaves, h, proof))
    decreases |leaves|
  {
    hide TreeHash, HashChildren, HashLeaf, NodePreimage, SplitPoint, Climb, Sides, NodePair, AuditPath, Half,
      IndexInHalf;
    if |leaves| == 1 {
      HashOfOnlyLeaf(sha, leaves, h, proof);
    } else {
      var (half, i, n, k) := (Half(m, leaves), IndexInHalf(m, leaves), |proof| - 1, SplitPoint(|leaves|));
      NodePairStep(sha, m, leaves, h, proof);
      AuditPathInHalf(sha, m, leaves);
      TreeHashStep(sha, leaves);
      var below := Climb(sha, Sides(i, |half|), h, proof[..n]);
      ClimbIsDigest(sha, Sides(i, |half|), h, proof[..n]);
      var (l, r) := if m < k then (below, proof[n]) else (proof[n], below);
      var (left, right) := (TreeHash(sha, leaves[..k]), TreeHash(sha, leaves[k..]));
      if NodePreimage(l, r) == NodePreimage(left, right) {
        NodePreimageInjective(l, r, left, right);
        HashSoundness(sha, i, half, h, proof[..n]);
        assert proof == proof[..n] + [proof[n]];
      } else {
        NodeCollision(sha, l, r, left, right);
      }
    }
  }

  lemma HashOfOnlyLeaf(sha: Sha, leaves: seq<Bytes>, h: Bytes, proof: seq<Bytes>)
    requires |leaves| == 1 && Accepts(sha, 0, 1, h, proof, TreeHash(sha, leaves))
    ensures h == HashLeaf(sha, leaves[0]) && proof == AuditPath(sha, 0, leaves)
  {}

  /** The same for a body: the two leaves themselves, when they differ and hash alike. */
  function ForgedPair(sha: Sha, m: nat, leaves: seq<Bytes>, body: Bytes, proof: seq<Bytes>): (Bytes, Bytes)
    requires m < |leaves| && |proof| == |Sides(m, |leaves|)|
  {
    if body != leaves[m] && HashLeaf(sha, body) == HashLeaf(sha, leaves[m]) then
      (LeafPreimage(body), LeafPreimage(leaves[m]))
    else NodePair(sha, m, leaves, HashLeaf(sha, body), proof)
  }

  lemma LeafCollision(sha: Sha, a: Bytes, b: Bytes)
    requires a != b && HashLeaf(sha, a) == HashLeaf(sha, b)
    ensures IsCollision(sha, (LeafPreimage(a), LeafPreimage(b)))
  {
    assert LeafPreimage(a)[1..] == a && LeafPreimage(b)[1..] == b;
  }

  /**
    A proof accepted against the tree hash of `leaves` is for the very leaf stored at
    that index and is its one true audit path, or it hands over a hash collision.
   */
  lemma Soundness(sha: Sha, m: nat, leaves: seq<Bytes>, body: Bytes, proof: seq<Bytes>)
    requires Accepts(sha, m, |leaves|, HashLeaf(sha, body), proof, TreeHash(sha, leaves))
    ensures || (body == leaves[m] && proof == AuditPath(sha, m, leaves))
            || IsCollision(sha, ForgedPair(sha, m, leaves, body, proof))
  {
    hide NodePair, TreeHash, AuditPath, HashLeaf, LeafPreimage, IsCollision, Climb, Sides;
    HashSoundness(sha, m, leaves, HashLeaf(sha, body), proof);
    if body != leaves[m] && HashLeaf(sha, body) == HashLeaf(sha, leaves[m]) {
      LeafCollision(sha, body, leaves[m]);
    }
  }

  /**
    The chain without the length check proves nothing: with no siblings at all, the tree
    hash itself passes for the entry hash at any index, which the verifier refuses.
   */
  lemma ChainNeedsLengthCheck(sha: Sha, m: nat, leaves: seq<Bytes>)
    requires m < |leaves| && 2 <= |leaves| < TWO_64
    ensures var (n, root) := (|leaves|, TreeHash(sha, leaves));
            && Chain(sha, m, ChainInner(m, n), root, []) == root
            && !Accepts(sha, m, n, root, [], root)
  {
    assert |Sides(m, |leaves|)| > 0;
  }

  // ----- Membership, whatever index and size are claimed -----

  /** The two messages at the first place, from the root down, where a path and the tree disagree. */
  function StrayPair(sha: Sha, leaves: seq<Bytes>, sides: seq<Side>, body: Bytes, path: seq<Bytes>): (Bytes, Bytes)
    requires |sides| == |path|
    decreases |sides|
  {
    var claimed := if sides == [] then LeafPreimage(body) else TopPreimage(sha, sides, body, path);
    if |leaves| == 0 then (claimed, [])
    else if |leaves| == 1 then (claimed, LeafPreimage(leaves[0]))
    else
      var (left, right) := (leaves[..SplitPoint(|leaves|)], leaves[SplitPoint(|leaves|)..]);
      var actual := NodePreimage(TreeHash(sha, left), TreeHash(sha, right));
      var n := |sides| - 1;
      if sides == [] || claimed != actual then (claimed, actual)
      else StrayPair(sha, if sides[n] == Left then left else right, sides[..n], body, path[..n])
  }

  /** What a path feeds to the hash at its top. */
  function TopPreimage(sha: Sha, sides: seq<Side>, body: Bytes, path: seq<Bytes>): Bytes
    requires |sides| == |path| > 0
  {
    var n := |sides| - 1;
    var below := Climb(sha, sides[..n], HashLeaf(sha, body), path[..n]);
    if sides[n] == Left then NodePreimage(below, path[n]) else NodePreimage(path[n], below)
  }

  lemma LeafIsNoNode(data: Bytes, l: Bytes, r: Bytes)
    ensures LeafPreimage(data) != NodePreimage(l, r)
  {
    assert LeafPreimage(data)[0] == 0 && NodePreimage(l, r)[0] == 1;
  }

  /** The leaf that a path of turns leads to in a tree of `n` leaves, if it ends at one. */
  function PlaceOf(n: nat, sides: seq<Side>): (place: Option<nat>)
    ensures place.Some? ==> place.value < n
    decreases |sides|
  {
    if n == 0 then None
    else if n == 1 || sides == [] then (if n == 1 && sides == [] then Some(0) else None)
    else
      var (k, top) := (SplitPoint(n), |sides| - 1);
      if sides[top] == Left then PlaceOf(k, sides[..top])
      else
        var right := PlaceOf(n - k, sides[..top]);
        if right.None? then None else Some(k + right.value)
  }

  lemma LastOf(a: seq<Side>, x: Side, b: seq<Side>)
    requires b != []
    ensures a + [x] == b <==> a == b[..|b| - 1] && x == b[|b| - 1]
  {
    assert b == b[..|b| - 1] + [b[|b| - 1]];
  }

  /** A path leads to a leaf exactly when it is that leaf's own: no two leaves of a tree have the same turns. */
  lemma {:induction false} PlaceOfSides(n: nat, sides: seq<Side>, m: nat)
    requires m < n
    ensures PlaceOf(n, sides) == Some(m) <==> Sides(m, n) == sides
    decreases |sides|
  {
    hide Sides, SplitPoint;
    if n == 1 {
      assert Sides(0, 1) == [] by { OneLeafHasNoSides(); }
    } else {
      SidesStep(m, n);
      var k := SplitPoint(n);
      if sides != [] {
        var below := sides[..|sides| - 1];
        if m < k {
          PlaceOfSides(k, below, m);
          LastOf(Sides(m, k), Left, sides);
        } else {
          PlaceOfSides(n - k, below, m - k);
          LastOf(Sides(m - k, n - k), Right, sides);
        }
      }
    }
  }

  lemma OneLeafHasNoSides()
    ensures Sides(0, 1) == []
  {}

  /** The path leads to a leaf of the log, and that leaf is the body. */
  predicate LeadsTo(leaves: seq<Bytes>, sides: seq<Side>, body: Bytes) {
    PlaceOf(|leaves|, sides).Some? && leaves[PlaceOf(|leaves|, sides).value] == body
  }

  lemma LeadsToStep(leaves: seq<Bytes>, sides: seq<Side>, body: Bytes)
    requires 2 <= |leaves| && sides != []
    ensures var (k, top) := (SplitPoint(|leaves|), |sides| - 1);
            LeadsTo(leaves, sides, body)
            <==> LeadsTo(if sides[top] == Left then leaves[..k] else leaves[k..], sides[..top], body)
  {
    hide SplitPoint;
  }

  /** A path from a leaf hash to the tree hash of a log starts at the leaf its turns lead to, or yields a collision. */
  lemma {:induction false} PathStartsInLog(sha: Sha, leaves: seq<Bytes>, sides: seq<Side>, body: Bytes,
                                           path: seq<Bytes>)
    requires |sides| == |path|
    requires Climb(sha, sides, HashLeaf(sha, body), path) == TreeHash(sha, leaves)
    ensures LeadsTo(leaves, sides, body) || IsCollision(sha, StrayPair(sha, leaves, sides, body, path))
    decreases |sides|
  {
    if sides == [] {
      if |leaves| == 1 {
        if body != leaves[0] {
          assert LeafPreimage(body)[1..] == body && LeafPreimage(leaves[0])[1..] == leaves[0];
        }
      } else if |leaves| > 1 {
        LeafIsNoNode(body, TreeHash(sha, leaves[..SplitPoint(|leaves|)]),
                     TreeHash(sha, leaves[SplitPoint(|leaves|)..]));
      } else {
        assert LeafPreimage(body) != [];
      }
    } else {
      PathStartsBelow(sha, leaves, sides, body, path);
    }
  }

  lemma {:induction false} PathStartsBelow(sha: Sha, leaves: seq<Bytes>, sides: seq<Side>, body: Bytes,
                                           path: seq<Bytes>)
    requires |sides| == |path| > 0
    requires Climb(sha, sides, HashLeaf(sha, body), path) == TreeHash(sha, leaves)
    ensures LeadsTo(leaves, sides, body) || IsCollision(sha, StrayPair(sha, leaves, sides, body, path))
    decreases |sides|, 0
  {
    hide LeadsTo, SplitPoint;
    var n := |sides| - 1;
    var below := Climb(sha, sides[..n], HashLeaf(sha, body), path[..n]);
    var (l, r) := if sides[n] == Left then (below, path[n]) else (path[n], below);
    assert TopPreimage(sha, sides, body, path) == NodePreimage(l, r);
    assert Climb(sha, sides, HashLeaf(sha, body), path) == HashChildren(sha, l, r);
    if |leaves| == 0 {
      assert NodePreimage(l, r) != [];
    } else if |leaves| == 1 {
      LeafIsNoNode(leaves[0], l, r);
    } else {
      var k := SplitPoint(|leaves|);
      var (left, right) := (TreeHash(sha, leaves[..k]), TreeHash(sha, leaves[k..]));
      if NodePreimage(l, r) == NodePreimage(left, right) {
        ClimbIsDigest(sha, sides[..n], HashLeaf(sha, body), path[..n]);
        NodePreimageInjective(l, r, left, right);
        PathStartsInLog(sha, if sides[n] == Left then leaves[..k] else leaves[k..], sides[..n], body, path[..n]);
        LeadsToStep(leaves, sides, body);
      }
    }
  }

  // ----- When the claimed index is the right one -----

  /** The highest bit in which a smaller number differs from a larger one is clear in the smaller. */
  lemma {:induction false} TopBitIsClear(a: nat, b: nat)
    requires a < b
    ensures var inner := Len(Xor(a, b)); 0 < inner && Bit(a, inner - 1) == 0
  {
    LenXorStep(a, b);
    XorZero(a / 2, b / 2);
    if a / 2 < b / 2 {
      TopBitIsClear(a / 2, b / 2);
    }
  }

  /** Where the fork of the larger level turns left, the other path is already past its own fork. */
  lemma ForksDiffer(m: nat, a: nat, b: nat)
    requires m < a && m < b && Len(Xor(m, a - 1)) < Len(Xor(m, b - 1))
    ensures Sides(m, a) != Sides(m, b)
  {
    hide Sides, SidesUp, PopCount, Shr, Len, Xor;
    var p := Len(Xor(m, b - 1)) - 1;
    XorZero(m, b - 1);
    LenOfZero();
    TopBitIsClear(m, b - 1);
    SidesCount(m, b);
    SidesAgree(m, a);
    SidesAgree(m, b);
    SidesUpByBits(m, b - 1, p);
    if p < |SidesUp(m, a - 1)| {
      SidesUpByBits(m, a - 1, p);
    }
  }

  lemma LenOfZero()
    ensures Len(0) == 0
  {}

  /** A leaf has the same turns in two trees exactly when it forks from both last leaves at one level. */
  lemma SameSidesIff(m: nat, a: nat, b: nat)
    requires m < a && m < b
    ensures Sides(m, a) == Sides(m, b) <==> Len(Xor(m, a - 1)) == Len(Xor(m, b - 1))
  {
    hide Sides, SidesUp, PopCount, Shr, Len, Xor;
    if Len(Xor(m, a - 1)) < Len(Xor(m, b - 1)) {
      ForksDiffer(m, a, b);
    } else if Len(Xor(m, b - 1)) < Len(Xor(m, a - 1)) {
      ForksDiffer(m, b, a);
    } else {
      SidesCount(m, a);
      SidesCount(m, b);
      SidesAgree(m, a);
      SidesAgree(m, b);
      forall i | 0 <= i < |Sides(m, a)|
        ensures Sides(m, a)[i] == Sides(m, b)[i]
      {
        SidesUpByBits(m, a - 1, i);
        SidesUpByBits(m, b - 1, i);
      }
    }
  }

  /**
    Whatever index and size an accepted proof claims, the body is the leaf its turns lead to; that is the
    claimed index exactly when the log has that index and it forks from the last leaf of the log at the
    level at which it forks from the last leaf of the claimed tree. Or the proof yields a collision.
   */
  lemma IndexIsRightIff(sha: Sha, leaves: seq<Bytes>, index: nat, size: nat, body: Bytes, proof: seq<Bytes>)
    requires Accepts(sha, index, size, HashLeaf(sha, body), proof, TreeHash(sha, leaves))
    ensures var sides := Sides(index, size);
            || IsCollision(sha, StrayPair(sha, leaves, sides, body, proof))
            || (&& LeadsTo(leaves, sides, body)
                && (PlaceOf(|leaves|, sides) == Some(index)
                    <==> index < |leaves| && Len(Xor(index, size - 1)) == Len(Xor(index, |leaves| - 1))))
  {
    hide TreeHash, Climb, StrayPair, Sides, IsCollision, Len, Xor, PlaceOf;
    PathStartsInLog(sha, leaves, Sides(index, size), body, proof);
    if index < |leaves| {
      PlaceOfSides(|leaves|, Sides(index, size), index);
      SameSidesIff(index, size, |leaves|);
    }
  }

  lemma LastAlone(sha: Sha, leaves: seq<Bytes>, c: Bytes)
    requires 2 <= |leaves| == SplitPoint(|leaves| + 1)
    ensures TreeHash(sha, leaves + [c]) == HashChildren(sha, TreeHash(sha, leaves), HashLeaf(sha, c))
  {
    hide HashChildren, HashLeaf, TreeHash, SplitPoint;
    TreeHashStep(sha, leaves + [c]);
    TreeHashOfOne(sha, c);
    assert (leaves + [c])[..|leaves|] == leaves && (leaves + [c])[|leaves|..] == [c];
  }

  lemma OneSideRight(sha: Sha, h: Bytes, s: Bytes)
    ensures Sides(1, 2) == [Right]
    ensures Climb(sha, [Right], h, [s]) == HashChildren(sha, s, h)
  {
    ClimbOneMore(sha, [], Right, h, [], s);
    assert [] + [Right] == [Right] && [] + [s] == [s];
  }

  /**
    The claimed size does matter for the index: the entry after a full tree, alone in its right
    half, also passes as the second of two.
   */
  lemma WrongSizeWrongIndex(sha: Sha, leaves: seq<Bytes>, c: Bytes)
    requires 2 <= |leaves| == SplitPoint(|leaves| + 1)
    ensures Accepts(sha, 1, 2, HashLeaf(sha, c), [TreeHash(sha, leaves)], TreeHash(sha, leaves + [c]))
    ensures PlaceOf(|leaves + [c]|, Sides(1, 2)) == Some(|leaves|)
  {
    assert [Right][..0] == [] && PlaceOf(1, []) == Some(0);
    hide TreeHash, Sides, Climb, SplitPoint, HashChildren, HashLeaf;
    LastAlone(sha, leaves, c);
    OneSideRight(sha, HashLeaf(sha, c), TreeHash(sha, leaves));
  }
}
