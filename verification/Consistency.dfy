/**
  Consistency proofs between two sizes of one log: section 2.1.2 of RFC 6962 for the
  proofs and section 2.1.4.2 of RFC 9162 for the verifier.
 */
module Consistency {
  import opened Basics
  import opened Merkle

  /** The sides from the last full subtree of the first `m` leaves up to the root of `n` leaves. */
  function ForkSides(m: nat, n: nat): seq<Side>
    requires 0 < m <= n
    decreases n
  {
    if m == n then []
    else
      var k := SplitPoint(n);
      if m <= k then ForkSides(m, k) + [Left] else ForkSides(m - k, n - k) + [Right]
  }

  /** Hash up to the old root: only left siblings belong to the old tree. */
  function ClimbOld(sha: Sha, sides: seq<Side>, h: Bytes, siblings: seq<Bytes>): Bytes
    requires |sides| == |siblings|
  {
    if sides == [] then h
    else
      var n := |sides| - 1;
      var below := ClimbOld(sha, sides[..n], h, siblings[..n]);
      if sides[n] == Left then below else HashChildren(sha, siblings[n], below)
  }

  predicate IsPowerOfTwo(n: nat) {
    n == 1 || (n != 0 && n % 2 == 0 && IsPowerOfTwo(n / 2))
  }

  /** The siblings lead from `seed` to both roots. */
  predicate LinksRoots(sha: Sha, sides: seq<Side>, seed: Bytes, path: seq<Bytes>, root1: Bytes, root2: Bytes) {
    && |path| == |sides|
    && ClimbOld(sha, sides, seed, path) == root1
    && Climb(sha, sides, seed, path) == root2
  }

  /** What an accepted consistency proof means. */
  predicate AcceptsConsistency(sha: Sha, size1: nat, size2: nat, proof: seq<Bytes>, root1: Bytes, root2: Bytes)
    requires 0 < size1
  {
    && size1 <= size2
    && if size1 == size2 then proof == [] && root1 == root2
       else if proof == [] then false
       else if IsPowerOfTwo(size1) then LinksRoots(sha, ForkSides(size1, size2), root1, proof, root1, root2)
       else LinksRoots(sha, ForkSides(size1, size2), proof[0], proof[1..], root1, root2)
  }

  /** One more level on top of the old climb. */
  lemma ClimbOldOneMore(sha: Sha, sides: seq<Side>, side: Side, h: Bytes, path: seq<Bytes>, sibling: Bytes)
    requires |sides| == |path|
    ensures ClimbOld(sha, sides + [side], h, path + [sibling])
            == if side == Left then ClimbOld(sha, sides, h, path)
               else HashChildren(sha, sibling, ClimbOld(sha, sides, h, path))
  {
    var n := |sides|;
    assert (sides + [side])[..n] == sides && (path + [sibling])[..n] == path;
  }

  // ----- The verifier -----

  /** Skip the levels below the last full subtree of the old tree. */
  function Aligned(fn: nat, sn: nat): (r: (nat, nat))
    requires fn < sn
    ensures r.0 < r.1
  {
    if fn % 2 == 1 then Aligned(fn / 2, sn / 2) else (fn, sn)
  }

  lemma {:induction false} AlignedFullLeft(n: nat)
    requires 2 <= n
    ensures var (f, s) := Aligned(SplitPoint(n) - 1, n - 1); SidesUp(f, s) == [Left]
  {
    if n == 2 {
      assert SidesUp(0, 1) == [Left] + SidesUp(0, 0);
    } else {
      SplitPointHalves(n);
      HalvesLeft(n, SplitPoint(n));
      AlignedFullLeft((n + 1) / 2);
    }
  }

  lemma {:induction false} AlignedLeftOfSplit(fn: nat, n: nat)
    requires 2 <= n && fn < SplitPoint(n) - 1
    ensures var (f, s) := Aligned(fn, n - 1);
            var (f', s') := Aligned(fn, SplitPoint(n) - 1);
            SidesUp(f, s) == SidesUp(f', s') + [Left]
  {
    hide SidesUp, SplitPoint;
    if fn % 2 == 0 {
      SidesUpLeftOfSplit(fn, n);
    } else {
      SplitPointHalves(n);
      HalvesLeft(n, SplitPoint(n));
      AlignedLeftOfSplit(fn / 2, (n + 1) / 2);
    }
  }

  lemma {:induction false} AlignedRightOfSplit(fn: nat, n: nat)
    requires 2 <= n && SplitPoint(n) <= fn < n - 1
    ensures var (f, s) := Aligned(fn, n - 1);
            var (f', s') := Aligned(fn - SplitPoint(n), n - 1 - SplitPoint(n));
            SidesUp(f, s) == SidesUp(f', s') + [Right]
  {
    hide SidesUp, SplitPoint;
    SplitPointHalves(n);
    HalvesRight(n, SplitPoint(n), fn);
    if fn % 2 == 0 {
      SidesUpRightOfSplit(fn, n);
    } else {
      AlignedRightOfSplit(fn / 2, (n + 1) / 2);
    }
  }

  lemma ForkSidesStep(m: nat, n: nat)
    requires 0 < m < n
    ensures var k := SplitPoint(n);
            && ForkSides(m, n) == (if m <= k then ForkSides(m, k) + [Left] else ForkSides(m - k, n - k) + [Right])
            && (m == k ==> ForkSides(m, n) == [Left])
  {
  }

  /** The recursive and the shifting form of a fork have the same sides. */
  lemma {:induction false} ForkSidesAgree(m: nat, n: nat)
    requires 0 < m < n
    ensures var (f, s) := Aligned(m - 1, n - 1); ForkSides(m, n) == SidesUp(f, s)
    decreases n
  {
    hide ForkSides, SidesUp, Aligned, SplitPoint;
    var k := SplitPoint(n);
    ForkSidesStep(m, n);
    if m == k {
      AlignedFullLeft(n);
    } else if m < k {
      ForkSidesAgree(m, k);
      AlignedLeftOfSplit(m - 1, n);
    } else {
      ForkSidesAgree(m - k, n - k);
      AlignedRightOfSplit(m - 1, n);
    }
  }

  lemma {:induction false} ClimbOldFromBottom(sha: Sha, side: Side, sides: seq<Side>, h: Bytes, s: Bytes,
                                              siblings: seq<Bytes>)
    requires |sides| == |siblings|
    ensures ClimbOld(sha, [side] + sides, h, [s] + siblings)
            == ClimbOld(sha, sides, if side == Left then h else HashChildren(sha, s, h), siblings)
  {
    var all, path := [side] + sides, [s] + siblings;
    var n := |all| - 1;
    if sides == [] {
      assert ClimbOld(sha, all[..n], h, path[..n]) == h;
    } else {
      assert all[..n] == [side] + sides[..n - 1];
      assert path[..n] == [s] + siblings[..n - 1];
      ClimbOldFromBottom(sha, side, sides[..n - 1], h, s, siblings[..n - 1]);
    }
  }

  /** What is left to check after some siblings. */
  predicate LinksUp(sha: Sha, fn: nat, sn: nat, fr: Bytes, sr: Bytes, path: seq<Bytes>, root1: Bytes, root2: Bytes)
    requires fn <= sn
  {
    var sides := SidesUp(fn, sn);
    && |path| == |sides|
    && ClimbOld(sha, sides, fr, path) == root1
    && Climb(sha, sides, sr, path) == root2
  }

  lemma LinksUpStep(sha: Sha, fn: nat, sn: nat, fr: Bytes, sr: Bytes, path: seq<Bytes>, root1: Bytes, root2: Bytes)
    requires fn <= sn && 0 < sn && path != []
    requires fn % 2 == 1 || fn < sn
    ensures var side := if fn % 2 == 1 then Right else Left;
            var fr' := if side == Left then fr else HashChildren(sha, path[0], fr);
            LinksUp(sha, fn, sn, fr, sr, path, root1, root2)
            <==> LinksUp(sha, fn / 2, sn / 2, fr', Join(sha, side, sr, path[0]), path[1..], root1, root2)
  {
    var side := if fn % 2 == 1 then Right else Left;
    var rest := SidesUp(fn / 2, sn / 2);
    assert SidesUp(fn, sn) == [side] + rest;
    assert path == [path[0]] + path[1..];
    if |rest| == |path[1..]| {
      ClimbFromBottom(sha, side, rest, sr, path[0], path[1..]);
      ClimbOldFromBottom(sha, side, rest, fr, path[0], path[1..]);
    }
  }

  /** `proof.VerifyConsistency` for a non-empty first tree: the loop of section 2.1.4.2 of RFC 9162. */
  method VerifyConsistency(sha: Sha, size1: nat, size2: nat, proof: seq<Bytes>, root1: Bytes, root2: Bytes)
    returns (ok: bool)
    requires 0 < size1
    ensures ok == AcceptsConsistency(sha, size1, size2, proof, root1, root2)
  {
    if size2 < size1 {
      return false;
    }
    if size1 == size2 {
      return proof == [] && root1 == root2;
    }
    if proof == [] {
      return false;
    }
    var seed, path := proof[0], proof[1..];
    if IsPowerOfTwo(size1) {
      seed, path := root1, proof;
    }
    var fn: nat, sn: nat := size1 - 1, size2 - 1;
    while fn % 2 == 1
      invariant fn < sn && Aligned(fn, sn) == Aligned(size1 - 1, size2 - 1)
      decreases fn
    {
      fn, sn := fn / 2, sn / 2;
    }
    ForkSidesAgree(size1, size2);
    ok := VerifyAligned(sha, fn, sn, seed, path, root1, root2);
  }

  /** The loop over the siblings, from the last full subtree of the old tree. */
  method VerifyAligned(sha: Sha, fn0: nat, sn0: nat, seed: Bytes, path: seq<Bytes>, root1: Bytes, root2: Bytes)
    returns (ok: bool)
    requires fn0 <= sn0
    ensures ok == LinksUp(sha, fn0, sn0, seed, seed, path, root1, root2)
  {
    var fn: nat, sn: nat := fn0, sn0;
    var fr: Bytes, sr: Bytes := seed, seed;
    ghost var want := LinksUp(sha, fn0, sn0, seed, seed, path, root1, root2);
    assert path[0..] == path;
    for i := 0 to |path|
      invariant fn <= sn
      invariant want == LinksUp(sha, fn, sn, fr, sr, path[i..], root1, root2)
    {
      if sn == 0 {
        return false;
      }
      var c := path[i];
      assert path[i..][0] == c && path[i..][1..] == path[i + 1..];
      if fn % 2 == 1 || fn == sn {
        while fn % 2 == 0
          invariant fn <= sn && 0 < sn && (fn % 2 == 1 || fn == sn)
          invariant want == LinksUp(sha, fn, sn, fr, sr, path[i..], root1, root2)
          decreases fn
        {
          fn, sn := fn / 2, sn / 2;
        }
        LinksUpStep(sha, fn, sn, fr, sr, path[i..], root1, root2);
        fr, sr := HashChildren(sha, c, fr), HashChildren(sha, c, sr);
      } else {
        LinksUpStep(sha, fn, sn, fr, sr, path[i..], root1, root2);
        sr := HashChildren(sha, sr, c);
      }
      fn, sn := fn / 2, sn / 2;
    }
    SidesUpEmpty(fn, sn);
    ok := sn == 0 && fr == root1 && sr == root2;
  }

  // ----- Soundness -----

  /** Two messages on which two different logs of one size and one tree hash collide. */
  function TreePair(sha: Sha, a: seq<Bytes>, b: seq<Bytes>): (Bytes, Bytes)
    requires |a| == |b|
    decreases |a|
  {
    if |a| == 0 then ([], [])
    else if |a| == 1 then (LeafPreimage(a[0]), LeafPreimage(b[0]))
    else
      var k := SplitPoint(|a|);
      var x := NodePreimage(TreeHash(sha, a[..k]), TreeHash(sha, a[k..]));
      var y := NodePreimage(TreeHash(sha, b[..k]), TreeHash(sha, b[k..]));
      if x != y then (x, y)
      else if a[..k] != b[..k] then TreePair(sha, a[..k], b[..k])
      else TreePair(sha, a[k..], b[k..])
  }

  lemma TreePairStep(sha: Sha, a: seq<Bytes>, b: seq<Bytes>)
    requires |a| == |b| && 2 <= |a|
    ensures var k := SplitPoint(|a|);
            var (l, r, l', r') :=
              (TreeHash(sha, a[..k]), TreeHash(sha, a[k..]), TreeHash(sha, b[..k]), TreeHash(sha, b[k..]));
            && TreeHash(sha, a) == HashChildren(sha, l, r) && TreeHash(sha, b) == HashChildren(sha, l', r')
            && TreePair(sha, a, b)
               == if NodePreimage(l, r) != NodePreimage(l', r') then (NodePreimage(l, r), NodePreimage(l', r'))
                  else if a[..k] != b[..k] then TreePair(sha, a[..k], b[..k])
                  else TreePair(sha, a[k..], b[k..])
  {
    hide SplitPoint, NodePreimage;
  }

  lemma TreePairOfLeaves(sha: Sha, a: seq<Bytes>, b: seq<Bytes>)
    requires |a| == |b| <= 1 && TreeHash(sha, a) == TreeHash(sha, b)
    ensures a == b || IsCollision(sha, TreePair(sha, a, b))
  {
    if |a| == 1 && a[0] != b[0] {
      assert LeafPreimage(a[0])[1..] == a[0] && LeafPreimage(b[0])[1..] == b[0];
    }
  }

  lemma PrefixOfParts(a: seq<Bytes>, b: seq<Bytes>, k: nat)
    requires k <= |a| && k <= |b| && a[..k] == b[..k]
    ensures a <= b <==> a[k..] <= b[k..]
  {
    assert a == a[..k] + a[k..] && b == b[..k] + b[k..];
  }

  /** A tree hash commits to every leaf. */
  lemma {:induction false} TreeHashBinds(sha: Sha, a: seq<Bytes>, b: seq<Bytes>)
    requires |a| == |b| && TreeHash(sha, a) == TreeHash(sha, b)
    ensures a == b || IsCollision(sha, TreePair(sha, a, b))
    decreases |a|
  {
    hide *;
    if |a| <= 1 {
      TreePairOfLeaves(sha, a, b);
    } else {
      TreePairStep(sha, a, b);
      var k := SplitPoint(|a|);
      var (l, r, l', r') :=
        (TreeHash(sha, a[..k]), TreeHash(sha, a[k..]), TreeHash(sha, b[..k]), TreeHash(sha, b[k..]));
      if NodePreimage(l, r) != NodePreimage(l', r') {
        NodeCollision(sha, l, r, l', r');
      } else {
        NodePreimageInjective(l, r, l', r');
        if a[..k] != b[..k] {
          TreeHashBinds(sha, a[..k], b[..k]);
        } else {
          TreeHashBinds(sha, a[k..], b[k..]);
          PrefixOfParts(a, b, k);
        }
      }
    }
  }

  /** Two messages read off a consistency proof that links `before` to a log it is no prefix of. */
  function ForkPair(sha: Sha, before: seq<Bytes>, after: seq<Bytes>, seed: Bytes, path: seq<Bytes>): (Bytes, Bytes)
    requires 0 < |before| <= |after| && |path| == |ForkSides(|before|, |after|)|
    decreases |after|
  {
    var m, n := |before|, |after|;
    if m == n then TreePair(sha, before, after)
    else
      var k, top := SplitPoint(n), |path| - 1;
      var sides := ForkSides(m, n)[..top];
      var below := Climb(sha, sides, seed, path[..top]);
      var actual := NodePreimage(TreeHash(sha, after[..k]), TreeHash(sha, after[k..]));
      if m <= k then
        assert sides == ForkSides(m, k);
        var claimed := NodePreimage(below, path[top]);
        if claimed != actual then (claimed, actual) else ForkPair(sha, before, after[..k], seed, path[..top])
      else
        assert sides == ForkSides(m - k, n - k);
        var claimed := NodePreimage(path[top], below);
        var claimedOld := NodePreimage(path[top], ClimbOld(sha, sides, seed, path[..top]));
        var actualOld := NodePreimage(TreeHash(sha, before[..k]), TreeHash(sha, before[k..]));
        if claimed != actual then (claimed, actual)
        else if claimedOld != actualOld then (claimedOld, actualOld)
        else if before[..k] != after[..k] then TreePair(sha, before[..k], after[..k])
        else ForkPair(sha, before[k..], after[k..], seed, path[..top])
  }

  /** A path from one seed to the tree hashes of two logs makes the first a prefix of the second. */
  lemma {:induction false} LinkedLogsExtend(sha: Sha, before: seq<Bytes>, after: seq<Bytes>, seed: Bytes,
                                            path: seq<Bytes>)
    requires 0 < |before| <= |after|
    requires |path| == |ForkSides(|before|, |after|)|
    requires ClimbOld(sha, ForkSides(|before|, |after|), seed, path) == TreeHash(sha, before)
    requires Climb(sha, ForkSides(|before|, |after|), seed, path) == TreeHash(sha, after)
    ensures before <= after || IsCollision(sha, ForkPair(sha, before, after, seed, path))
    decreases |after|
  {
    var m, n := |before|, |after|;
    if m == n {
      TreeHashBinds(sha, before, after);
    } else {
      var k, top := SplitPoint(n), |path| - 1;
      var sides := ForkSides(m, n)[..top];
      var below := Climb(sha, sides, seed, path[..top]);
      var left, right := TreeHash(sha, after[..k]), TreeHash(sha, after[k..]);
      if m <= k {
        assert sides == ForkSides(m, k);
        assert ForkSides(m, n)[top] == Left;
        assert ClimbOld(sha, sides, seed, path[..top]) == TreeHash(sha, before);
        assert m == k ==> below == seed == TreeHash(sha, before);
        if NodePreimage(below, path[top]) == NodePreimage(left, right) {
          NodePreimageInjective(below, path[top], left, right);
          LinkedLogsExtend(sha, before, after[..k], seed, path[..top]);
        }
      } else {
        assert sides == ForkSides(m - k, n - k);
        LinkedRight(sha, before, after, seed, path);
      }
    }
  }

  /** Above a split both trees share their left part, so the proof descends into the right part of both. */
  lemma LinkedRight(sha: Sha, before: seq<Bytes>, after: seq<Bytes>, seed: Bytes, path: seq<Bytes>)
    requires 2 <= |after| && SplitPoint(|after|) < |before| < |after|
    requires |path| == |ForkSides(|before|, |after|)|
    requires ClimbOld(sha, ForkSides(|before|, |after|), seed, path) == TreeHash(sha, before)
    requires Climb(sha, ForkSides(|before|, |after|), seed, path) == TreeHash(sha, after)
    ensures before <= after || IsCollision(sha, ForkPair(sha, before, after, seed, path))
    decreases |after|, 0
  {
    hide *;
    var m, n := |before|, |after|;
    var k, top := SplitPoint(n), |path| - 1;
    RightClimbs(sha, before, after, seed, path);
    ForkPairOnRight(sha, before, after, seed, path);
    var sibling, rest, sides := path[top], path[..top], ForkSides(m - k, n - k);
    var below, belowOld := Climb(sha, sides, seed, rest), ClimbOld(sha, sides, seed, rest);
    var (left, right) := (TreeHash(sha, after[..k]), TreeHash(sha, after[k..]));
    var (leftOld, rightOld) := (TreeHash(sha, before[..k]), TreeHash(sha, before[k..]));
    if NodePreimage(sibling, below) != NodePreimage(left, right) {
      NodeCollision(sha, sibling, below, left, right);
    } else if NodePreimage(sibling, belowOld) != NodePreimage(leftOld, rightOld) {
      NodeCollision(sha, sibling, belowOld, leftOld, rightOld);
    } else {
      NodePreimageInjective(sibling, below, left, right);
      NodePreimageInjective(sibling, belowOld, leftOld, rightOld);
      if before[..k] != after[..k] {
        TreeHashBinds(sha, before[..k], after[..k]);
      } else {
        LinkedLogsExtend(sha, before[k..], after[k..], seed, rest);
        PrefixOfParts(before, after, k);
      }
    }
  }

  lemma RightClimbs(sha: Sha, before: seq<Bytes>, after: seq<Bytes>, seed: Bytes, path: seq<Bytes>)
    requires 2 <= |after| && SplitPoint(|after|) < |before| < |after|
    requires |path| == |ForkSides(|before|, |after|)|
    ensures var (m, n, k, top) := (|before|, |after|, SplitPoint(|after|), |path| - 1);
            var sides := ForkSides(m - k, n - k);
            && |sides| == top && |Climb(sha, sides, seed, path[..top])| == DIGEST_SIZE
            && Climb(sha, ForkSides(m, n), seed, path)
               == HashChildren(sha, path[top], Climb(sha, sides, seed, path[..top]))
            && ClimbOld(sha, ForkSides(m, n), seed, path)
               == HashChildren(sha, path[top], ClimbOld(sha, sides, seed, path[..top]))
            && TreeHash(sha, before) == HashChildren(sha, TreeHash(sha, before[..k]), TreeHash(sha, before[k..]))
            && TreeHash(sha, after) == HashChildren(sha, TreeHash(sha, after[..k]), TreeHash(sha, after[k..]))
  {
    hide ClimbOld, SplitPoint, TreeHash;
    var m, n, k, top := |before|, |after|, SplitPoint(|after|), |path| - 1;
    var sides := ForkSides(m - k, n - k);
    SplitPointStable(n, m);
    TreeHashStep(sha, before);
    TreeHashStep(sha, after);
    ForkSidesStep(m - k, n - k);
    assert path == path[..top] + [path[top]];
    ClimbOneMore(sha, sides, Right, seed, path[..top], path[top]);
    ClimbOldOneMore(sha, sides, Right, seed, path[..top], path[top]);
  }

  lemma ForkPairOnRight(sha: Sha, before: seq<Bytes>, after: seq<Bytes>, seed: Bytes, path: seq<Bytes>)
    requires 2 <= |after| && SplitPoint(|after|) < |before| < |after|
    requires |path| == |ForkSides(|before|, |after|)|
    ensures var (k, top) := (SplitPoint(|after|), |path| - 1);
            var sides := ForkSides(|before| - k, |after| - k);
            && |sides| == top
            && var claimed := NodePreimage(path[top], Climb(sha, sides, seed, path[..top]));
               var claimedOld := NodePreimage(path[top], ClimbOld(sha, sides, seed, path[..top]));
               var actual := NodePreimage(TreeHash(sha, after[..k]), TreeHash(sha, after[k..]));
               var actualOld := NodePreimage(TreeHash(sha, before[..k]), TreeHash(sha, before[k..]));
               ForkPair(sha, before, after, seed, path)
               == if claimed != actual then (claimed, actual)
                  else if claimedOld != actualOld then (claimedOld, actualOld)
                  else if before[..k] != after[..k] then TreePair(sha, before[..k], after[..k])
                  else ForkPair(sha, before[k..], after[k..], seed, path[..top])
  {
    hide TreeHash, Climb, ClimbOld, NodePreimage, TreePair;
    var k := SplitPoint(|after|);
    assert ForkSides(|before|, |after|)[..|path| - 1] == ForkSides(|before| - k, |after| - k);
  }

  /** The two messages of an accepted consistency proof. */
  function ConsistencyPair(sha: Sha, before: seq<Bytes>, after: seq<Bytes>, proof: seq<Bytes>): (Bytes, Bytes)
    requires 0 < |before|
    requires AcceptsConsistency(sha, |before|, |after|, proof, TreeHash(sha, before), TreeHash(sha, after))
  {
    if |before| == |after| then TreePair(sha, before, after)
    else if IsPowerOfTwo(|before|) then ForkPair(sha, before, after, TreeHash(sha, before), proof)
    else ForkPair(sha, before, after, proof[0], proof[1..])
  }

  /** An accepted proof between two logs means the first is a prefix of the second, or yields a hash collision. */
  lemma ConsistencySoundness(sha: Sha, before: seq<Bytes>, after: seq<Bytes>, proof: seq<Bytes>)
    requires 0 < |before|
    requires AcceptsConsistency(sha, |before|, |after|, proof, TreeHash(sha, before), TreeHash(sha, after))
    ensures before <= after || IsCollision(sha, ConsistencyPair(sha, before, after, proof))
  {
    if |before| == |after| {
      TreeHashBinds(sha, before, after);
    } else if IsPowerOfTwo(|before|) {
      LinkedLogsExtend(sha, before, after, TreeHash(sha, before), proof);
    } else {
      LinkedLogsExtend(sha, before, after, proof[0], proof[1..]);
    }
  }

  // ----- Completeness -----

  /** SUBPROOF of section 2.1.2. */
  function SubProof(sha: Sha, m: nat, leaves: seq<Bytes>, known: bool): seq<Bytes>
    requires 0 < m <= |leaves|
    decreases |leaves|
  {
    if m == |leaves| then (if known then [] else [TreeHash(sha, leaves)])
    else
      var k := SplitPoint(|leaves|);
      if m <= k then SubProof(sha, m, leaves[..k], known) + [TreeHash(sha, leaves[k..])]
      else SubProof(sha, m - k, leaves[k..], false) + [TreeHash(sha, leaves[..k])]
  }

  lemma {:induction false} SplitPointIsPower(n: nat)
    requires 2 <= n
    ensures IsPowerOfTwo(SplitPoint(n))
  {
    if n > 2 {
      SplitPointHalves(n);
      SplitPointIsPower((n + 1) / 2);
    }
  }

  lemma {:induction false} NoPowerBetween(m: nat, n: nat)
    requires 2 <= n && SplitPoint(n) < m < n
    ensures !IsPowerOfTwo(m)
  {
    SplitPointHalves(n);
    if m % 2 == 0 {
      NoPowerBetween(m / 2, (n + 1) / 2);
    }
  }

  /** A proof from an unknown old tree carries its own seed and links the two tree hashes. */
  lemma {:induction false} SubProofUnknown(sha: Sha, m: nat, leaves: seq<Bytes>)
    requires 0 < m <= |leaves|
    ensures var proof := SubProof(sha, m, leaves, false);
            && proof != []
            && LinksRoots(sha, ForkSides(m, |leaves|), proof[0], proof[1..], TreeHash(sha, leaves[..m]),
                          TreeHash(sha, leaves))
    decreases |leaves|
  {
    if m == |leaves| {
      assert leaves[..m] == leaves;
    } else {
      var k := SplitPoint(|leaves|);
      if m <= k {
        SubProofUnknown(sha, m, leaves[..k]);
        var sub := SubProof(sha, m, leaves[..k], false);
        LinksLeft(sha, m, leaves, sub[0], sub[1..]);
        assert SubProof(sha, m, leaves, false)[1..] == sub[1..] + [TreeHash(sha, leaves[k..])];
      } else {
        SubProofUnknown(sha, m - k, leaves[k..]);
        var sub := SubProof(sha, m - k, leaves[k..], false);
        LinksRight(sha, m, leaves, sub[0], sub[1..]);
        assert SubProof(sha, m, leaves, false)[1..] == sub[1..] + [TreeHash(sha, leaves[..k])];
      }
    }
  }

  lemma LinksLeft(sha: Sha, m: nat, leaves: seq<Bytes>, seed: Bytes, path: seq<Bytes>)
    requires 0 < m < |leaves| && m <= SplitPoint(|leaves|)
    requires var left := leaves[..SplitPoint(|leaves|)];
             LinksRoots(sha, ForkSides(m, |left|), seed, path, TreeHash(sha, left[..m]), TreeHash(sha, left))
    ensures LinksRoots(sha, ForkSides(m, |leaves|), seed, path + [TreeHash(sha, leaves[SplitPoint(|leaves|)..])],
                       TreeHash(sha, leaves[..m]), TreeHash(sha, leaves))
  {
    var k := SplitPoint(|leaves|);
    ClimbOneMore(sha, ForkSides(m, k), Left, seed, path, TreeHash(sha, leaves[k..]));
    ClimbOldOneMore(sha, ForkSides(m, k), Left, seed, path, TreeHash(sha, leaves[k..]));
    assert leaves[..k][..m] == leaves[..m];
  }

  lemma LinksRight(sha: Sha, m: nat, leaves: seq<Bytes>, seed: Bytes, path: seq<Bytes>)
    requires 2 <= |leaves| && SplitPoint(|leaves|) < m < |leaves|
    requires var (k, right) := (SplitPoint(|leaves|), leaves[SplitPoint(|leaves|)..]);
             LinksRoots(sha, ForkSides(m - k, |right|), seed, path, TreeHash(sha, right[..m - k]), TreeHash(sha, right))
    ensures LinksRoots(sha, ForkSides(m, |leaves|), seed, path + [TreeHash(sha, leaves[..SplitPoint(|leaves|)])],
                       TreeHash(sha, leaves[..m]), TreeHash(sha, leaves))
  {
    var n, k := |leaves|, SplitPoint(|leaves|);
    ClimbOneMore(sha, ForkSides(m - k, n - k), Right, seed, path, TreeHash(sha, leaves[..k]));
    ClimbOldOneMore(sha, ForkSides(m - k, n - k), Right, seed, path, TreeHash(sha, leaves[..k]));
    SplitPointStable(n, m);
    assert leaves[..m][..k] == leaves[..k] && leaves[..m][k..] == leaves[k..][..m - k];
  }

  /** From a known old tree, the seed is left out exactly when that tree is one full subtree. */
  lemma {:induction false} SubProofKnown(sha: Sha, m: nat, leaves: seq<Bytes>)
    requires 0 < m <= |leaves| && (m == |leaves| ==> IsPowerOfTwo(m))
    ensures var proof := SubProof(sha, m, leaves, true);
            if IsPowerOfTwo(m) then
              LinksRoots(sha, ForkSides(m, |leaves|), TreeHash(sha, leaves[..m]), proof, TreeHash(sha, leaves[..m]),
                         TreeHash(sha, leaves))
            else
              proof == SubProof(sha, m, leaves, false)
    decreases |leaves|
  {
    if m == |leaves| {
      assert leaves[..m] == leaves;
    } else {
      var k := SplitPoint(|leaves|);
      if m <= k {
        SplitPointIsPower(|leaves|);
        SubProofKnown(sha, m, leaves[..k]);
        assert leaves[..k][..m] == leaves[..m];
        if IsPowerOfTwo(m) {
          LinksLeft(sha, m, leaves, TreeHash(sha, leaves[..m]), SubProof(sha, m, leaves[..k], true));
        }
      } else {
        NoPowerBetween(m, |leaves|);
      }
    }
  }

  /** Every honest consistency proof between two sizes of a growing log is accepted. */
  lemma ConsistencyCompleteness(sha: Sha, m: nat, leaves: seq<Bytes>)
    requires 0 < m <= |leaves|
    ensures AcceptsConsistency(sha, m, |leaves|, SubProof(sha, m, leaves, true), TreeHash(sha, leaves[..m]),
                               TreeHash(sha, leaves))
  {
    if m == |leaves| {
      assert leaves[..m] == leaves;
    } else {
      SubProofKnown(sha, m, leaves);
      if !IsPowerOfTwo(m) {
        SubProofUnknown(sha, m, leaves);
      }
    }
  }
}
