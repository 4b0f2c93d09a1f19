/**
  The life of a sharded log: entries are appended to the active tree, and now and then the
  active tree is frozen at its current length and a fresh tree takes its place.
 */
module Rotation {
  import opened Basics
  import opened Sharding

  /** Frozen shards and the active one, with the lengths their trees have. */
  datatype State = State(frozen: seq<LogRange>, active: LogRange)

  /** What the server works with: the same ranges, the active length being unused. */
  function RangesOf(s: State): Ranges { Ranges(s.frozen, s.active) }

  function Shards(s: State): seq<LogRange> { s.frozen + [s.active] }

  ghost predicate Valid(s: State) {
    && DistinctTrees(s.frozen, s.active.treeID)
    && NonNegative(Shards(s))
    && Total(Shards(s)) < TWO_63
  }

  /** One leaf is appended to the active tree. */
  predicate Append(s: State, s': State) {
    && s' == s.(active := s.active.(treeLength := s.active.treeLength + 1))
    && Total(Shards(s')) < TWO_63
  }

  /** The active tree is frozen and an empty tree not used before becomes active. */
  predicate Rotate(s: State, s': State) {
    && s'.frozen == s.frozen + [s.active]
    && s'.active.treeLength == 0
    && forall i :: 0 <= i < |Shards(s)| ==> Shards(s)[i].treeID != s'.active.treeID
  }

  predicate Step(s: State, s': State) { Append(s, s') || Rotate(s, s') }

  /** Any sequence of appends and rotations. */
  predicate Run(states: seq<State>) {
    states != [] && forall i :: 0 <= i < |states| - 1 ==> Step(states[i], states[i + 1])
  }

  function Length(r: LogRange): nat { if r.treeLength < 0 then 0 else r.treeLength }

  /** The leaves of one tree. */
  function Leaves(r: LogRange): seq<(int, int)> { seq(Length(r), i => (r.treeID, i)) }

  /** The virtual log: the leaves of all shards, oldest first. */
  function Log(shards: seq<LogRange>): seq<(int, int)> {
    if shards == [] then [] else Log(shards[..|shards| - 1]) + Leaves(shards[|shards| - 1])
  }

  lemma {:induction false} TotalConcat(a: seq<LogRange>, b: seq<LogRange>)
    ensures Total(a + b) == Total(a) + Total(b)
  {
    if a == [] {
      assert a + b == b;
    } else {
      TotalConcat(a[1..], b);
      assert (a + b)[1..] == a[1..] + b;
    }
  }

  lemma StepKeepsValid(s: State, s': State)
    requires Valid(s) && Step(s, s')
    ensures Valid(s')
  {
    if Append(s, s') {
      assert forall i :: 0 <= i < |Shards(s')| ==> Shards(s')[i].treeID == Shards(s)[i].treeID;
      forall i | 0 <= i < |Shards(s')|
        ensures 0 <= Shards(s')[i].treeLength
      {
        assert 0 <= Shards(s)[i].treeLength;
      }
    } else {
      assert Shards(s') == Shards(s) + [s'.active];
      TotalConcat(Shards(s), [s'.active]);
      forall i | 0 <= i < |s'.frozen|
        ensures s'.frozen[i].treeID != s'.active.treeID
      {
        assert Shards(s)[i].treeID != s'.active.treeID;
      }
    }
  }

  /** A step only adds entries at the end. */
  lemma StepExtendsLog(s: State, s': State)
    requires Valid(s) && Step(s, s')
    ensures Valid(s') && Log(Shards(s)) <= Log(Shards(s'))
  {
    StepKeepsValid(s, s');
    var n := |s.frozen|;
    assert s.active == Shards(s)[n] && 0 <= Shards(s)[n].treeLength;
    assert Shards(s)[..n] == s.frozen;
    if Append(s, s') {
      assert Shards(s')[..n] == s.frozen;
      assert Leaves(s.active) <= Leaves(s'.active);
    } else {
      assert Shards(s')[..n + 1] == Shards(s);
    }
  }

  /** Every state of a run is valid and extends the log of every earlier state. */
  lemma {:induction false} RunExtendsLog(states: seq<State>, i: nat, j: nat)
    requires Run(states) && Valid(states[0]) && i <= j < |states|
    ensures Valid(states[i]) && Valid(states[j]) && Log(Shards(states[i])) <= Log(Shards(states[j]))
    decreases j, i
  {
    hide Valid, Step, Log, Shards;
    if i < j {
      RunExtendsLog(states, i, j - 1);
      StepExtendsLog(states[j - 1], states[j]);
    } else if j > 0 {
      RunExtendsLog(states, j - 1, j - 1);
      StepKeepsValid(states[j - 1], states[j]);
    }
  }

  /** The virtual log as the lengths count it. */
  lemma {:induction false} LogLength(shards: seq<LogRange>)
    requires NonNegative(shards)
    ensures |Log(shards)| == Total(shards)
  {
    if shards != [] {
      var n := |shards| - 1;
      assert shards[n].treeLength >= 0;
      LogLength(shards[..n]);
      TotalConcat(shards[..n], [shards[n]]);
      assert shards == shards[..n] + [shards[n]];
      assert Total([shards[n]]) == shards[n].treeLength;
    }
  }

  /** Resolving goes through the frozen shards it passes to the last one. */
  lemma {:induction false} ResolveReadsLog(frozen: seq<LogRange>, active: LogRange, before: seq<(int, int)>, index: int)
    requires NonNegative(frozen) && 0 <= active.treeLength
    requires |before| <= index < |before| + Total(frozen) + active.treeLength < TWO_63
    ensures NonNegative(frozen + [active]) && |Log(frozen + [active])| == Total(frozen) + active.treeLength
    ensures Resolve(frozen, active.treeID, index - |before|) == (before + Log(frozen + [active]))[index]
    decreases |frozen|
  {
    TotalConcat(frozen, [active]);
    LogLength(frozen + [active]);
    if frozen == [] {
      assert (frozen + [active])[..0] == [];
    } else {
      var first, rest := frozen[0], frozen[1..];
      assert 0 <= first.treeLength;
      TotalNonNegative(rest);
      LogFirst(frozen + [active]);
      assert (frozen + [active])[1..] == rest + [active];
      if index - |before| < first.treeLength {
        assert (before + Log(frozen + [active]))[index] == Leaves(first)[index - |before|];
      } else {
        ResolveReadsLog(rest, active, before + Leaves(first), index);
        assert before + Leaves(first) + Log(rest + [active]) == before + Log(frozen + [active]);
      }
    }
  }

  lemma {:induction false} LogFirst(shards: seq<LogRange>)
    requires shards != [] && NonNegative(shards)
    ensures 0 <= shards[0].treeLength && NonNegative(shards[1..])
    ensures Log(shards) == Leaves(shards[0]) + Log(shards[1..])
  {
    hide Leaves;
    assert 0 <= shards[0].treeLength;
    var n := |shards| - 1;
    if n > 0 {
      LogFirst(shards[..n]);
      assert shards[..n][1..] == shards[1..][..n - 1];
      assert shards[1..][n - 1] == shards[n];
    } else {
      assert shards[..0] == [];
    }
  }

  /** At any time, index `i` resolves to entry `i` of the virtual log. */
  lemma ResolveIsLogEntry(s: State, index: int)
    requires Valid(s) && 0 <= index < |Log(Shards(s))|
    ensures ResolveVirtualIndex(RangesOf(s), index) == Log(Shards(s))[index]
  {
    var n := |s.frozen|;
    assert Shards(s)[n] == s.active && 0 <= Shards(s)[n].treeLength;
    assert NonNegative(s.frozen) by {
      assert forall i :: 0 <= i < n ==> Shards(s)[i] == s.frozen[i];
    }
    LogLength(Shards(s));
    TotalConcat(s.frozen, [s.active]);
    ResolveReadsLog(s.frozen, s.active, [], index);
    assert [] + Log(Shards(s)) == Log(Shards(s));
  }

  /**
    Over every run of appends and rotations the virtual log only grows, and no entry ever
    changes its virtual index or the tree and leaf that index resolves to.
   */
  lemma RotationNeverRenumbers(states: seq<State>, i: nat, j: nat, index: int)
    requires Run(states) && Valid(states[0]) && i <= j < |states|
    requires 0 <= index < |Log(Shards(states[i]))|
    ensures Log(Shards(states[i])) <= Log(Shards(states[j]))
    ensures var (tid, leaf) := ResolveVirtualIndex(RangesOf(states[i]), index);
            && ResolveVirtualIndex(RangesOf(states[j]), index) == (tid, leaf)
            && VirtualLogIndex(leaf, tid, RangesOf(states[i])) == index
            && VirtualLogIndex(leaf, tid, RangesOf(states[j])) == index
  {
    hide *;
    RunExtendsLog(states, i, j);
    ResolveIsLogEntry(states[i], index);
    ResolveIsLogEntry(states[j], index);
    EntryHasItsIndex(states[i], index);
    EntryHasItsIndex(states[j], index);
  }

  lemma EntryHasItsIndex(s: State, index: int)
    requires Valid(s) && 0 <= index < |Log(Shards(s))|
    ensures var (tid, leaf) := ResolveVirtualIndex(RangesOf(s), index);
            VirtualLogIndex(leaf, tid, RangesOf(s)) == index
  {
    var n := |s.frozen|;
    assert Shards(s)[n] == s.active && 0 <= Shards(s)[n].treeLength;
    assert NonNegative(s.frozen) by {
      assert forall i :: 0 <= i < n ==> Shards(s)[i] == s.frozen[i];
    }
    LogLength(Shards(s));
    TotalConcat(s.frozen, [s.active]);
    assert Total([s.active]) == s.active.treeLength;
    IndexesAreBijective(RangesOf(s), index);
  }
}
