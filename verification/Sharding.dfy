/** Shards of one virtual log (pkg/sharding/ranges.go, pkg/sharding/log_index.go). */
module Sharding {
  import opened Basics
  import opened Signing
  import SignerConfigs

  /** The latest root of a tree. */
  datatype LogRoot = LogRoot(size: U64, hash: Bytes)

  datatype LogRange = LogRange(
    treeID: int,
    treeLength: int,
    signers: seq<Signer>,
    pemPubKeys: seq<string>,
    logIDs: seq<string>,
    pemPubKey: string,
    logID: string)

  /** Inactive shards from oldest to newest, and the active one. */
  datatype Ranges = Ranges(inactive: seq<LogRange>, active: LogRange)

  // ----- The two index translations -----

  /** `ResolveVirtualIndex`, with int64 subtraction. */
  function Resolve(inactive: seq<LogRange>, activeID: int, index: int): (int, int)
    decreases |inactive|
  {
    if inactive == [] then (activeID, index)
    else if index < inactive[0].treeLength then (inactive[0].treeID, index)
    else Resolve(inactive[1..], activeID, Int64(index - inactive[0].treeLength))
  }

  /** `VirtualLogIndex`, with int64 addition, starting from the shards already passed. */
  function VirtualFrom(offset: int, inactive: seq<LogRange>, activeID: int, leaf: int, tid: int): int
    decreases |inactive|
  {
    if inactive == [] then (if activeID == tid then Int64(offset + leaf) else -1)
    else if inactive[0].treeID == tid then Int64(offset + leaf)
    else VirtualFrom(Int64(offset + inactive[0].treeLength), inactive[1..], activeID, leaf, tid)
  }

  function ResolveVirtualIndex(r: Ranges, index: int): (int, int) { Resolve(r.inactive, r.active.treeID, index) }

  function VirtualLogIndex(leaf: int, tid: int, r: Ranges): int {
    VirtualFrom(0, r.inactive, r.active.treeID, leaf, tid)
  }

  /** The number of entries in the inactive shards. */
  function Total(inactive: seq<LogRange>): int {
    if inactive == [] then 0 else inactive[0].treeLength + Total(inactive[1..])
  }

  predicate DistinctTrees(inactive: seq<LogRange>, activeID: int) {
    && (forall i, j :: 0 <= i < j < |inactive| ==> inactive[i].treeID != inactive[j].treeID)
    && forall i :: 0 <= i < |inactive| ==> inactive[i].treeID != activeID
  }

  predicate NonNegative(inactive: seq<LogRange>) {
    forall i :: 0 <= i < |inactive| ==> 0 <= inactive[i].treeLength
  }

  /** Distinct trees, no negative length, and a total that fits. */
  predicate Sane(r: Ranges) {
    DistinctTrees(r.inactive, r.active.treeID) && NonNegative(r.inactive) && Total(r.inactive) < TWO_63
  }

  /** A leaf that exists: inside an inactive shard, or anywhere in the active one. */
  predicate IsLeaf(r: Ranges, tid: int, leaf: int) {
    && 0 <= leaf
    && (|| tid == r.active.treeID
        || exists i :: 0 <= i < |r.inactive| && r.inactive[i].treeID == tid && leaf < r.inactive[i].treeLength)
  }

  lemma {:induction false} TotalNonNegative(inactive: seq<LogRange>)
    requires NonNegative(inactive)
    ensures 0 <= Total(inactive)
  {
    if inactive != [] {
      assert inactive[0].treeLength >= 0;
      TotalNonNegative(inactive[1..]);
    }
  }

  /** From any offset, the virtual index of a leaf resolves to that leaf again. */
  lemma {:induction false} VirtualThenResolve(offset: int, inactive: seq<LogRange>, activeID: int, leaf: int, tid: int)
    requires DistinctTrees(inactive, activeID) && NonNegative(inactive)
    requires 0 <= offset && 0 <= leaf && offset + Total(inactive) + leaf < TWO_63
    requires || tid == activeID
             || exists i :: 0 <= i < |inactive| && inactive[i].treeID == tid && leaf < inactive[i].treeLength
    ensures var v := VirtualFrom(offset, inactive, activeID, leaf, tid);
            offset <= v < TWO_63 && Resolve(inactive, activeID, v - offset) == (tid, leaf)
    decreases |inactive|
  {
    if inactive != [] {
      var len := inactive[0].treeLength;
      assert 0 <= len;
      TotalNonNegative(inactive[1..]);
      if inactive[0].treeID == tid {
        var i :| 0 <= i < |inactive| && inactive[i].treeID == tid && leaf < inactive[i].treeLength;
        assert i == 0;
      } else {
        assert DistinctTrees(inactive[1..], activeID);
        if tid != activeID {
          var i :| 0 <= i < |inactive| && inactive[i].treeID == tid && leaf < inactive[i].treeLength;
          assert inactive[1..][i - 1].treeID == tid;
        }
        VirtualThenResolve(offset + len, inactive[1..], activeID, leaf, tid);
      }
    }
  }

  lemma LeavesAreBijective(r: Ranges, leaf: int, tid: int)
    requires Sane(r) && IsLeaf(r, tid, leaf) && Total(r.inactive) + leaf < TWO_63
    ensures var v := VirtualLogIndex(leaf, tid, r);
            0 <= v && ResolveVirtualIndex(r, v) == (tid, leaf)
  {
    VirtualThenResolve(0, r.inactive, r.active.treeID, leaf, tid);
  }

  /** A tree outside the shards has no virtual index. */
  lemma {:induction false} UnknownTree(offset: int, inactive: seq<LogRange>, activeID: int, leaf: int, tid: int)
    requires tid != activeID && forall i :: 0 <= i < |inactive| ==> inactive[i].treeID != tid
    ensures VirtualFrom(offset, inactive, activeID, leaf, tid) == -1
    decreases |inactive|
  {
    if inactive != [] {
      UnknownTree(Int64(offset + inactive[0].treeLength), inactive[1..], activeID, leaf, tid);
    }
  }

  // ----- Where an index lies -----

  /** The tree ID of shard `k`, the active one being last. */
  function TreeAt(r: Ranges, k: nat): int
    requires k <= |r.inactive|
  {
    if k < |r.inactive| then r.inactive[k].treeID else r.active.treeID
  }

  /** Where shard `k` starts in the virtual log. */
  function StartOf(inactive: seq<LogRange>, k: nat): int
    requires k <= |inactive|
  {
    Total(inactive[..k])
  }

  lemma StartSteps(inactive: seq<LogRange>, k: nat)
    requires 0 < k <= |inactive|
    ensures StartOf(inactive, k) == inactive[0].treeLength + StartOf(inactive[1..], k - 1)
  {
    assert inactive[..k][1..] == inactive[1..][..k - 1];
  }

  /** Starts are in order, and the last is the total. */
  lemma {:induction false} StartsAreOrdered(inactive: seq<LogRange>, j: nat, k: nat)
    requires NonNegative(inactive) && j <= k <= |inactive|
    ensures 0 <= StartOf(inactive, j) <= StartOf(inactive, k) <= Total(inactive)
    ensures k < |inactive| ==> StartOf(inactive, k) + inactive[k].treeLength == StartOf(inactive, k + 1)
    decreases |inactive|
  {
    if inactive == [] {
    } else {
      assert inactive[0].treeLength >= 0;
      var rest := inactive[1..];
      assert NonNegative(rest);
      TotalNonNegative(rest);
      if k > 0 {
        StartSteps(inactive, k);
        if k < |inactive| {
          StartSteps(inactive, k + 1);
        }
        if j > 0 {
          StartSteps(inactive, j);
        }
        StartsAreOrdered(rest, if j > 0 then j - 1 else 0, k - 1);
      } else {
        StartSteps(inactive, 1);
      }
    }
  }

  /** The first shard with a tree ID, or the number of shards. */
  function FirstShard(inactive: seq<LogRange>, tid: int): (k: nat)
    ensures k <= |inactive|
    ensures k < |inactive| ==> inactive[k].treeID == tid
    ensures forall i :: 0 <= i < k ==> inactive[i].treeID != tid
  {
    if inactive == [] || inactive[0].treeID == tid then 0 else 1 + FirstShard(inactive[1..], tid)
  }

  /** A virtual index counts from the start of the first shard with the tree ID. */
  lemma {:induction false} VirtualCountsFromFirst(offset: int, inactive: seq<LogRange>, activeID: int, leaf: int,
                                                  tid: int)
    requires FirstShard(inactive, tid) < |inactive| || tid == activeID
    ensures VirtualFrom(offset, inactive, activeID, leaf, tid)
            == Int64(offset + StartOf(inactive, FirstShard(inactive, tid)) + leaf)
    decreases |inactive|
  {
    hide Int64;
    if inactive != [] && inactive[0].treeID != tid {
      var (rest, len) := (inactive[1..], inactive[0].treeLength);
      var k := FirstShard(inactive, tid);
      StartSteps(inactive, k);
      VirtualCountsFromFirst(Int64(offset + len), rest, activeID, leaf, tid);
      WrapOnce(offset + len, StartOf(rest, k - 1) + leaf);
    }
  }

  /** The index lies in shard `k`. */
  predicate Holds(inactive: seq<LogRange>, k: nat, index: int)
    requires k <= |inactive|
  {
    StartOf(inactive, k) <= index && (k < |inactive| ==> index < StartOf(inactive, k + 1))
  }

  /** Resolving finds the shard that holds the index. */
  lemma {:induction false} ResolveFindsShard(inactive: seq<LogRange>, activeID: int, k: nat, index: int)
    requires NonNegative(inactive) && 0 <= index < TWO_63 && k <= |inactive| && Holds(inactive, k, index)
    ensures Resolve(inactive, activeID, index)
            == (if k < |inactive| then inactive[k].treeID else activeID, index - StartOf(inactive, k))
    decreases |inactive|
  {
    if inactive != [] {
      var (rest, len) := (inactive[1..], inactive[0].treeLength);
      assert 0 <= len && NonNegative(rest);
      StartSteps(inactive, 1);
      if k > 0 {
        StartSteps(inactive, k);
        StartsAreOrdered(inactive, 1, k);
        if k < |inactive| {
          StartSteps(inactive, k + 1);
        }
        ResolveFindsShard(rest, activeID, k - 1, index - len);
      }
    }
  }

  /** The shard that holds an index. */
  function ShardOf(inactive: seq<LogRange>, index: int): (k: nat)
    ensures k <= |inactive|
  {
    if inactive == [] || index < inactive[0].treeLength then 0
    else 1 + ShardOf(inactive[1..], index - inactive[0].treeLength)
  }

  lemma {:induction false} ShardOfHolds(inactive: seq<LogRange>, index: int)
    requires NonNegative(inactive) && 0 <= index
    ensures Holds(inactive, ShardOf(inactive, index), index)
    decreases |inactive|
  {
    if inactive != [] {
      assert NonNegative(inactive[1..]);
      StartSteps(inactive, 1);
      if index >= inactive[0].treeLength {
        ShardOfHolds(inactive[1..], index - inactive[0].treeLength);
        var k := ShardOf(inactive, index);
        StartSteps(inactive, k);
        if k < |inactive| {
          StartSteps(inactive, k + 1);
        }
      }
    }
  }

  predicate ComesBack(r: Ranges, index: int) {
    var (tid, leaf) := ResolveVirtualIndex(r, index);
    VirtualLogIndex(leaf, tid, r) == index
  }

  /** An index in shard `k` comes back exactly when the first shard of that tree starts where shard `k` does. */
  lemma ComesBackIff(r: Ranges, k: nat, index: int)
    requires NonNegative(r.inactive) && Total(r.inactive) < TWO_63 && 0 <= index < TWO_63
    requires k <= |r.inactive| && Holds(r.inactive, k, index)
    ensures FirstShard(r.inactive, TreeAt(r, k)) <= k
    ensures ComesBack(r, index) <==> StartOf(r.inactive, FirstShard(r.inactive, TreeAt(r, k))) == StartOf(r.inactive, k)
  {
    hide VirtualFrom, Resolve, Total, FirstShard;
    var tid := TreeAt(r, k);
    var first := FirstShard(r.inactive, tid);
    ResolveFindsShard(r.inactive, r.active.treeID, k, index);
    VirtualCountsFromFirst(0, r.inactive, r.active.treeID, index - StartOf(r.inactive, k), tid);
    StartsAreOrdered(r.inactive, first, k);
  }

  /**
    The translations are inverse bijections between non-negative indexes and leaves,
    empty shards included, and the active tree owns exactly the indexes from the total up.
   */
  lemma IndexesAreBijective(r: Ranges, index: int)
    requires Sane(r) && 0 <= index < TWO_63
    ensures var (tid, leaf) := ResolveVirtualIndex(r, index);
            && IsLeaf(r, tid, leaf)
            && VirtualLogIndex(leaf, tid, r) == index
            && (tid == r.active.treeID <==> Total(r.inactive) <= index)
            && (Total(r.inactive) <= index ==> leaf == index - Total(r.inactive))
  {
    hide Resolve, VirtualFrom, FirstShard, StartOf;
    var k := ShardOf(r.inactive, index);
    ShardOfHolds(r.inactive, index);
    ResolveFindsShard(r.inactive, r.active.treeID, k, index);
    StartsAreOrdered(r.inactive, k, |r.inactive|);
    LastStart(r.inactive);
    ComesBackIff(r, k, index);
    assert FirstShard(r.inactive, TreeAt(r, k)) == k;
    if k < |r.inactive| {
      StartsAreOrdered(r.inactive, k, k);
      StartsAreOrdered(r.inactive, k + 1, |r.inactive|);
    }
  }

  lemma LastStart(inactive: seq<LogRange>)
    ensures StartOf(inactive, |inactive|) == Total(inactive)
  {
    assert inactive[..|inactive|] == inactive;
  }

  // ----- Shards that share a tree ID -----

  /** Shards `j` and `k` have one tree ID, the later one has leaves to find, and they start at different places. */
  predicate Clash(r: Ranges, j: nat, k: nat)
    requires j < k <= |r.inactive|
  {
    && TreeAt(r, j) == TreeAt(r, k)
    && (k < |r.inactive| ==> r.inactive[k].treeLength > 0)
    && StartOf(r.inactive, j) != StartOf(r.inactive, k)
  }

  /** Two clashing shards break the inverse: the first index of the later one does not come back. */
  lemma DuplicateTreesBreakIndexes(r: Ranges, j: nat, k: nat)
    requires NonNegative(r.inactive) && Total(r.inactive) < TWO_63
    requires j < k <= |r.inactive| && Clash(r, j, k)
    ensures 0 <= StartOf(r.inactive, k) < TWO_63 && !ComesBack(r, StartOf(r.inactive, k))
  {
    hide ComesBack, Total, FirstShard;
    StartsAreOrdered(r.inactive, j, k);
    ComesBackIff(r, k, StartOf(r.inactive, k));
    var first := FirstShard(r.inactive, TreeAt(r, k));
    StartsAreOrdered(r.inactive, first, j);
  }

  /** For all lengths, every index comes back if and only if no two shards clash. */
  lemma IndexesComeBackIff(r: Ranges)
    requires NonNegative(r.inactive) && Total(r.inactive) < TWO_63
    ensures (forall index :: 0 <= index < TWO_63 ==> ComesBack(r, index))
            <==> (forall j, k :: 0 <= j < k <= |r.inactive| ==> !Clash(r, j, k))
  {
    hide ComesBack, Total, FirstShard, StartOf;
    if j, k :| 0 <= j < k <= |r.inactive| && Clash(r, j, k) {
      DuplicateTreesBreakIndexes(r, j, k);
    } else {
      forall index | 0 <= index < TWO_63
        ensures ComesBack(r, index)
      {
        ShardOfHolds(r.inactive, index);
        var k := ShardOf(r.inactive, index);
        ComesBackIff(r, k, index);
        FirstDoesNotClash(r, k, index);
      }
    }
  }

  lemma FirstDoesNotClash(r: Ranges, k: nat, index: int)
    requires NonNegative(r.inactive) && k <= |r.inactive| && Holds(r.inactive, k, index)
    requires forall i, j :: 0 <= i < j <= |r.inactive| ==> !Clash(r, i, j)
    requires FirstShard(r.inactive, TreeAt(r, k)) <= k
    ensures StartOf(r.inactive, FirstShard(r.inactive, TreeAt(r, k))) == StartOf(r.inactive, k)
  {
    hide StartOf, FirstShard;
    var first := FirstShard(r.inactive, TreeAt(r, k));
    StartsAreOrdered(r.inactive, first, k);
    if first < k {
      assert !Clash(r, first, k);
    }
  }

  // ----- The ranges in memory -----

  class LogRanges {
    /** None for a nil slice. */
    var inactive: Option<seq<LogRange>>
    var active: LogRange

    function Inactive(): seq<LogRange>
      reads this
    {
      if inactive.Some? then inactive.value else []
    }

    function Contents(): Ranges
      reads this
    {
      Ranges(Inactive(), active)
    }

    constructor (inactive: Option<seq<LogRange>>, active: LogRange)
      ensures this.inactive == inactive && this.active == active
    {
      this.inactive, this.active := inactive, active;
    }

    method ResolveVirtualIndex(index: int) returns (tid: int, leaf: int)
      ensures (tid, leaf) == Resolve(Inactive(), active.treeID, index)
    {
      var l := Inactive();
      var indexLeft := index;
      assert l[0..] == l;
      for i := 0 to |l|
        invariant Resolve(l, active.treeID, index) == Resolve(l[i..], active.treeID, indexLeft)
      {
        assert l[i..][0] == l[i] && l[i..][1..] == l[i + 1..];
        if indexLeft < l[i].treeLength {
          return l[i].treeID, indexLeft;
        }
        indexLeft := Int64(indexLeft - l[i].treeLength);
      }
      return active.treeID, indexLeft;
    }

    method VirtualLogIndex(leaf: int, tid: int) returns (v: int)
      requires IsInt64(leaf)
      ensures v == VirtualFrom(0, Inactive(), active.treeID, leaf, tid)
    {
      if inactive.None? {
        if active.treeID == tid {
          return leaf;
        }
        return -1;
      }
      var l := Inactive();
      v := 0;
      assert l[0..] == l;
      for i := 0 to |l|
        invariant VirtualFrom(0, l, active.treeID, leaf, tid) == VirtualFrom(v, l[i..], active.treeID, leaf, tid)
      {
        assert l[i..][0] == l[i] && l[i..][1..] == l[i + 1..];
        if l[i].treeID == tid {
          return Int64(v + leaf);
        }
        v := Int64(v + l[i].treeLength);
      }
      if active.treeID == tid {
        return Int64(v + leaf);
      }
      return -1;
    }

    method TotalInactiveLength() returns (total: int)
      ensures total == Int64(Total(Inactive()))
    {
      var l := Inactive();
      total := 0;
      assert l[0..] == l;
      for i := 0 to |l|
        invariant IsInt64(total) && Int64(total + Total(l[i..])) == Int64(Total(l))
      {
        assert l[i..][0] == l[i] && l[i..][1..] == l[i + 1..];
        WrapOnce(total + l[i].treeLength, Total(l[i + 1..]));
        total := Int64(total + l[i].treeLength);
      }
    }

    method GetLogRangeByTreeID(treeID: int) returns (r: Option<LogRange>)
      ensures r == RangeOf(Contents(), treeID)
    {
      if active.treeID == treeID {
        return Some(active);
      }
      var l := Inactive();
      assert l[0..] == l;
      for i := 0 to |l|
        invariant FirstRange(l, treeID) == FirstRange(l[i..], treeID)
      {
        assert l[i..][0] == l[i] && l[i..][1..] == l[i + 1..];
        if l[i].treeID == treeID {
          return Some(l[i]);
        }
      }
      return None;
    }

    /**
      Writes the length of every inactive shard in place. When a tree cannot be read, the
      shards before it keep the lengths already written.
     */
    method CompleteInitialization(latest: int -> Option<LogRoot>) returns (roots: Option<map<int, LogRoot>>)
      modifies this`inactive
      ensures inactive.None? == old(inactive.None?)
      ensures var k := Readable(old(Inactive()), latest);
              && Inactive() == WithLengths(old(Inactive()), latest, k)
              && (roots.Some? <==> k == |old(Inactive())|)
              && (roots.Some? ==> roots.value == RootsOf(old(Inactive()), latest, k))
    {
      var l := Inactive();
      var m: map<int, LogRoot> := map[];
      for i := 0 to |l|
        invariant inactive.None? == old(inactive.None?)
        invariant i <= Readable(l, latest)
        invariant Inactive() == WithLengths(l, latest, i)
        invariant m == RootsOf(l, latest, i)
      {
        var root := latest(l[i].treeID);
        if root.None? {
          return None;
        }
        ReadableStep(l, latest, i);
        var cur := Inactive();
        inactive := Some(cur[i := cur[i].(treeLength := Int64(root.value.size))]);
        assert Inactive() == WithLengths(l, latest, i + 1);
        m := m[l[i].treeID := root.value];
      }
      return Some(m);
    }
  }

  function FirstRange(l: seq<LogRange>, treeID: int): Option<LogRange> {
    if l == [] then None else if l[0].treeID == treeID then Some(l[0]) else FirstRange(l[1..], treeID)
  }

  function RangeOf(r: Ranges, treeID: int): Option<LogRange> {
    if r.active.treeID == treeID then Some(r.active) else FirstRange(r.inactive, treeID)
  }

  /** A tree has a range exactly when it is a shard: the active one if it is the active tree, and else the first. */
  lemma {:induction false} RangeOfIs(r: Ranges, treeID: int)
    ensures RangeOf(r, treeID).None?
            <==> treeID != r.active.treeID && forall i :: 0 <= i < |r.inactive| ==> r.inactive[i].treeID != treeID
    ensures treeID == r.active.treeID ==> RangeOf(r, treeID) == Some(r.active)
    ensures treeID != r.active.treeID && RangeOf(r, treeID).Some? ==>
              exists i :: && 0 <= i < |r.inactive| && RangeOf(r, treeID) == Some(r.inactive[i])
                          && r.inactive[i].treeID == treeID
                          && forall j :: 0 <= j < i ==> r.inactive[j].treeID != treeID
    decreases |r.inactive|
  {
    if r.inactive != [] && treeID != r.active.treeID && r.inactive[0].treeID != treeID {
      var rest := r.(inactive := r.inactive[1..]);
      RangeOfIs(rest, treeID);
      assert forall i :: 0 < i < |r.inactive| ==> r.inactive[i] == rest.inactive[i - 1];
      if RangeOf(r, treeID).Some? {
        var i :| && 0 <= i < |rest.inactive| && RangeOf(rest, treeID) == Some(rest.inactive[i])
                 && rest.inactive[i].treeID == treeID && forall j :: 0 <= j < i ==> rest.inactive[j].treeID != treeID;
        assert RangeOf(r, treeID) == Some(r.inactive[i + 1]);
      }
    }
  }

  /** The number of leading shards whose latest root can be read. */
  function Readable(l: seq<LogRange>, latest: int -> Option<LogRoot>): (k: nat)
    ensures k <= |l|
    ensures forall i :: 0 <= i < k ==> latest(l[i].treeID).Some?
    ensures k < |l| ==> latest(l[k].treeID).None?
  {
    if l == [] || latest(l[0].treeID).None? then 0 else 1 + Readable(l[1..], latest)
  }

  lemma ReadableStep(l: seq<LogRange>, latest: int -> Option<LogRoot>, i: nat)
    requires i < |l| && i <= Readable(l, latest) && latest(l[i].treeID).Some?
    ensures i + 1 <= Readable(l, latest)
  {
  }

  /** The first `k` shards with the lengths read from their roots. */
  function WithLengths(l: seq<LogRange>, latest: int -> Option<LogRoot>, k: nat): (w: seq<LogRange>)
    requires k <= |l|
    ensures |w| == |l|
  {
    seq(|l|, i requires 0 <= i < |l| =>
      if i < k && latest(l[i].treeID).Some? then l[i].(treeLength := Int64(latest(l[i].treeID).value.size)) else l[i])
  }

  /** Reading lengths changes nothing else of a shard, and nothing at all from the first unreadable tree on. */
  lemma OnlyLengthsChange(l: seq<LogRange>, latest: int -> Option<LogRoot>, i: nat)
    requires i < |l|
    ensures var (k, w) := (Readable(l, latest), WithLengths(l, latest, Readable(l, latest)));
            if i < k then latest(l[i].treeID).Some?
              && w[i] == l[i].(treeLength := Int64(latest(l[i].treeID).value.size))
            else w[i] == l[i]
  {
  }

  function RootsOf(l: seq<LogRange>, latest: int -> Option<LogRoot>, k: nat): map<int, LogRoot>
    requires k <= |l|
  {
    if k == 0 then map[]
    else
      var root := latest(l[k - 1].treeID);
      if root.None? then RootsOf(l, latest, k - 1) else RootsOf(l, latest, k - 1)[l[k - 1].treeID := root.value]
  }

  /** After a complete initialisation every shard has its root on record, of its own length. */
  lemma {:induction false} RootsMatchLengths(l: seq<LogRange>, latest: int -> Option<LogRoot>, k: nat, i: nat)
    requires i < k <= Readable(l, latest)
    ensures l[i].treeID in RootsOf(l, latest, k)
    ensures RootsOf(l, latest, k)[l[i].treeID] == latest(l[i].treeID).value
    ensures WithLengths(l, latest, |l|)[i].treeLength == Int64(RootsOf(l, latest, k)[l[i].treeID].size)
  {
    if i < k - 1 {
      RootsMatchLengths(l, latest, k - 1, i);
    }
  }

  // ----- Keys of a shard -----

  /** The public half of a signer in its two printed forms, either of which may fail. */
  datatype KeyPrinter = KeyPrinter(pem: Key -> Option<string>, id: Key -> Option<string>)

  /** One PEM key and one log ID for each signer, in order; the first of each is primary. */
  predicate Aligned(printer: KeyPrinter, r: LogRange) {
    && r.signers != []
    && |r.pemPubKeys| == |r.logIDs| == |r.signers|
    && (forall i :: 0 <= i < |r.signers| ==>
          printer.pem(r.signers[i].key) == Some(r.pemPubKeys[i]) && printer.id(r.signers[i].key) == Some(r.logIDs[i]))
    && r.pemPubKey == r.pemPubKeys[0] && r.logID == r.logIDs[0]
  }

  /**
    `initializeRange`: an unset configuration is refused; on success the keys are aligned with the merged signers
    and nothing else changed.
   */
  method InitializeRange(loader: SignerConfigs.Loader, printer: KeyPrinter, cfg: SignerConfigs.SigningConfig,
                         r: LogRange)
    returns (result: Result<LogRange>)
    ensures result.Ok?
            <==> && !SignerConfigs.IsUnset(cfg) && SignerConfigs.Merged(loader, cfg).Some?
                 && var signers := SignerConfigs.Merged(loader, cfg).value;
                    forall i :: 0 <= i < |signers| ==>
                      printer.pem(signers[i].key).Some? && printer.id(signers[i].key).Some?
    ensures result.Ok? ==>
              && Aligned(printer, result.value)
              && SignerConfigs.Merged(loader, cfg) == Some(result.value.signers)
              && result.value.treeID == r.treeID && result.value.treeLength == r.treeLength
  {
    hide SignerConfigs.Merged;
    if SignerConfigs.IsUnset(cfg) {
      return Err("signing config not set");
    }
    var made := SignerConfigs.NewMultipleFromConfig(loader, cfg);
    if made.Err? {
      return Err("creating signers");
    }
    var signers := made.value;
    SignerConfigs.MergedPositions(loader, cfg, 0);
    var pems: seq<string>, ids: seq<string> := [], [];
    for i := 0 to |signers|
      invariant |pems| == |ids| == i
      invariant forall j :: 0 <= j < i ==>
                printer.pem(signers[j].key) == Some(pems[j]) && printer.id(signers[j].key) == Some(ids[j])
    {
      var pem := printer.pem(signers[i].key);
      if pem.None? {
        return Err("marshalling public key");
      }
      var id := printer.id(signers[i].key);
      if id.None? {
        return Err("getting key identity");
      }
      pems, ids := pems + [pem.value], ids + [id.value];
    }
    result := Ok(r.(signers := signers, pemPubKeys := pems, logIDs := ids, pemPubKey := pems[0], logID := ids[0]));
  }
}
