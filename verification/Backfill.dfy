/**
  Backfilling the search index (cmd/backfill-index/main.go): one worker for each log entry, each of
  them removing and then pushing its UUID under every index key, all of them interleaved.
 */
module Backfill {
  import opened Basics

  /** The lists of the index by key; a missing key is an empty list. */
  type Index = map<string, seq<string>>

  function List(index: Index, key: string): seq<string> { if key in index then index[key] else [] }

  /** How often a UUID is listed under a key. */
  function Count(index: Index, key: string, uuid: string): nat { multiset(List(index, key))[uuid] }

  /** `LREM key 0 value`: remove every occurrence. */
  function Without(list: seq<string>, uuid: string): seq<string> {
    if list == [] then [] else (if list[0] == uuid then [] else [list[0]]) + Without(list[1..], uuid)
  }

  function LRem(index: Index, key: string, uuid: string): Index { index[key := Without(List(index, key), uuid)] }

  /** `LPUSH key value`. */
  function LPush(index: Index, key: string, uuid: string): Index { index[key := [uuid] + List(index, key)] }

  lemma {:induction false} WithoutCounts(list: seq<string>, uuid: string, u: string)
    ensures multiset(Without(list, uuid))[u] == if u == uuid then 0 else multiset(list)[u]
  {
    if list != [] {
      WithoutCounts(list[1..], uuid, u);
      assert list == [list[0]] + list[1..];
      assert Without(list, uuid) == (if list[0] == uuid then [] else [list[0]]) + Without(list[1..], uuid);
    }
  }

  lemma WithoutStep(list: seq<string>, uuid: string)
    ensures Without(list, uuid)
            == if list == [] then [] else (if list[0] == uuid then [] else [list[0]]) + Without(list[1..], uuid)
  {
  }

  /** What is left keeps its order. */
  lemma {:induction false} WithoutFilters(a: seq<string>, b: seq<string>, uuid: string)
    ensures Without(a + b, uuid) == Without(a, uuid) + Without(b, uuid)
    ensures |a| == 1 ==> Without(a, uuid) == if a[0] == uuid then [] else a
  {
    hide Without;
    WithoutStep(a, uuid);
    if a == [] {
      assert a + b == b;
    } else {
      WithoutStep(a + b, uuid);
      WithoutStep(a[1..], uuid);
      WithoutFilters(a[1..], b, uuid);
      assert (a + b)[1..] == a[1..] + b;
    }
  }

  lemma LRemCounts(index: Index, key: string, uuid: string, k: string, u: string)
    ensures Count(LRem(index, key, uuid), k, u) == if k == key && u == uuid then 0 else Count(index, k, u)
  {
    WithoutCounts(List(index, key), uuid, u);
  }

  lemma LPushCounts(index: Index, key: string, uuid: string, k: string, u: string)
    ensures Count(LPush(index, key, uuid), k, u) == Count(index, k, u) + (if k == key && u == uuid then 1 else 0)
  {
    assert multiset([uuid] + List(index, key)) == multiset{uuid} + multiset(List(index, key));
  }

  // ----- Workers -----

  /** What a worker reads of one entry: its UUID and index keys, or None when it does not parse. */
  datatype Entry = Entry(uuid: string, keys: Option<seq<string>>)

  type Pair = (string, string)

  function KeyPairs(uuid: string, keys: seq<string>): seq<Pair> {
    seq(|keys|, i requires 0 <= i < |keys| => (keys[i], uuid))
  }

  /** The pairs a worker adds, in order; entries that do not parse are skipped. */
  function PairsOf(entries: seq<Entry>): seq<Pair> {
    if entries == [] then []
    else
      var e := entries[|entries| - 1];
      PairsOf(entries[..|entries| - 1]) + (if e.keys.None? then [] else KeyPairs(e.uuid, e.keys.value))
  }

  /** A worker on its own: remove and push, pair by pair. */
  function AddAll(index: Index, pairs: seq<Pair>): Index {
    if pairs == [] then index
    else
      var (key, uuid) := pairs[|pairs| - 1];
      LPush(LRem(AddAll(index, pairs[..|pairs| - 1]), key, uuid), key, uuid)
  }

  lemma {:induction false} AddAllAppend(index: Index, a: seq<Pair>, b: seq<Pair>)
    ensures AddAll(index, a + b) == AddAll(AddAll(index, a), b)
  {
    if b == [] {
      assert a + b == a;
    } else {
      AddAllAppend(index, a, b[..|b| - 1]);
      assert (a + b)[..|a + b| - 1] == a + b[..|b| - 1];
    }
  }

  /** What was added last stands first in its list, before all that was there. */
  lemma NewestFirst(index: Index, pairs: seq<Pair>)
    requires pairs != []
    ensures var ((key, uuid), n) := (pairs[|pairs| - 1], |pairs| - 1);
            List(AddAll(index, pairs), key) == [uuid] + Without(List(AddAll(index, pairs[..n]), key), uuid)
  {
  }

  /** How a remove and a push end: both done, the remove refused, or the push refused after the remove. */
  datatype Reply = Stored | NotRemoved | NotPushed

  function Added(index: Index, p: Pair, reply: Reply): Index {
    match reply
    case Stored => LPush(LRem(index, p.0, p.1), p.0, p.1)
    case NotRemoved => index
    case NotPushed => LRem(index, p.0, p.1)
  }

  /** The same with replies, the first of them being number `from`. */
  function AddWith(index: Index, pairs: seq<Pair>, replies: nat -> Reply, from: nat): Index {
    if pairs == [] then index
    else
      var n := |pairs| - 1;
      Added(AddWith(index, pairs[..n], replies, from), pairs[n], replies(from + n))
  }

  lemma {:induction false} AddWithAppend(index: Index, a: seq<Pair>, b: seq<Pair>, replies: nat -> Reply, from: nat)
    ensures AddWith(index, a + b, replies, from) == AddWith(AddWith(index, a, replies, from), b, replies, from + |a|)
  {
    hide Added;
    if b == [] {
      assert a + b == a;
    } else {
      AddWithAppend(index, a, b[..|b| - 1], replies, from);
      assert (a + b)[..|a + b| - 1] == a + b[..|b| - 1];
    }
  }

  /** When nothing is refused, replies do not matter. */
  lemma {:induction false} AllStored(index: Index, pairs: seq<Pair>, replies: nat -> Reply, from: nat)
    requires forall i :: from <= i < from + |pairs| ==> replies(i) == Stored
    ensures AddWith(index, pairs, replies, from) == AddAll(index, pairs)
  {
    hide LRem, LPush;
    if pairs != [] {
      AllStored(index, pairs[..|pairs| - 1], replies, from);
    }
  }

  /** How many of the replies from `from` on are errors. */
  function Failures(replies: nat -> Reply, from: nat, n: nat): nat {
    if n == 0 then 0 else Failures(replies, from, n - 1) + (if replies(from + n - 1).Stored? then 0 else 1)
  }

  lemma {:induction false} FailuresAppend(replies: nat -> Reply, from: nat, n: nat, k: nat)
    ensures Failures(replies, from, n + k) == Failures(replies, from, n) + Failures(replies, from + n, k)
  {
    if k > 0 {
      FailuresAppend(replies, from, n, k - 1);
    }
  }

  const MAX_INSERT_ERRORS := 5

  /** The lists, the number of pairs sent so far, and the number of errors among them. */
  datatype Progress = Progress(index: Index, sent: nat, errors: nat)

  function Advanced(p: Progress, pairs: seq<Pair>, replies: nat -> Reply): Progress {
    Progress(AddWith(p.index, pairs, replies, p.sent), p.sent + |pairs|, p.errors + Failures(replies, p.sent, |pairs|))
  }

  lemma AdvancedAppend(p: Progress, a: seq<Pair>, b: seq<Pair>, replies: nat -> Reply)
    ensures Advanced(p, a + b, replies) == Advanced(Advanced(p, a, replies), b, replies)
  {
    hide AddWith, Failures;
    AddWithAppend(p.index, a, b, replies, p.sent);
    FailuresAppend(replies, p.sent, |a|, |b|);
  }

  lemma NothingAdded(p: Progress, replies: nat -> Reply)
    ensures PairsOf([]) == [] && Advanced(p, [], replies) == p
  {}

  lemma AdvancedByOne(p: Progress, pairs: seq<Pair>, i: nat, replies: nat -> Reply)
    requires i < |pairs|
    ensures var q := Advanced(p, pairs[..i], replies);
            var stored := replies(q.sent) == Stored;
            Advanced(p, pairs[..i + 1], replies)
            == Progress(Added(q.index, pairs[i], replies(q.sent)), q.sent + 1, q.errors + if stored then 0 else 1)
  {
    hide Added;
    assert pairs[..i + 1][..i] == pairs[..i];
  }

  /** The Redis client: two commands, with nothing to keep other workers out between them. */
  class RedisClient {
    const replies: nat -> Reply
    var index: Index
    var sent: nat
    var errors: nat

    ghost function Now(): Progress
      reads this
    {
      Progress(index, sent, errors)
    }

    constructor (index: Index, replies: nat -> Reply)
      ensures Now() == Progress(index, 0, 0) && this.replies == replies
    {
      this.index, this.replies, sent, errors := index, replies, 0, 0;
    }

    method IdempotentAddToIndex(dryRun: bool, key: string, uuid: string) returns (ok: bool)
      modifies `index, `sent
      ensures dryRun ==> ok && Now() == old(Now())
      ensures !dryRun ==>
                && index == Added(old(index), (key, uuid), replies(old(sent)))
                && sent == old(sent) + 1 && ok == (replies(old(sent)) == Stored)
    {
      if dryRun {
        return true;
      }
      var reply := replies(sent);
      sent := sent + 1;
      if reply == NotRemoved {
        return false;
      }
      index := index[key := Without(List(index, key), uuid)];
      if reply == NotPushed {
        return false;
      }
      index := index[key := [uuid] + List(index, key)];
      return true;
    }

    /** The keys of one entry, up to the error that is one too many. */
    method AddKeys(dryRun: bool, uuid: string, keys: seq<string>) returns (ok: bool, ghost n: nat)
      requires errors <= MAX_INSERT_ERRORS
      modifies this
      ensures n <= |keys| && (ok ==> n == |keys|) && (dryRun ==> ok)
      ensures Now() == if dryRun then old(Now()) else Advanced(old(Now()), KeyPairs(uuid, keys)[..n], replies)
      ensures if ok then errors <= MAX_INSERT_ERRORS else errors == MAX_INSERT_ERRORS + 1
    {
      ghost var pairs := KeyPairs(uuid, keys);
      n := 0;
      assert pairs[..0] == [];
      for i := 0 to |keys|
        invariant n == i && errors <= MAX_INSERT_ERRORS
        invariant Now() == if dryRun then old(Now()) else Advanced(old(Now()), pairs[..i], replies)
      {
        hide Added, Advanced;
        AdvancedByOne(old(Now()), pairs, i, replies);
        var added := IdempotentAddToIndex(dryRun, keys[i], uuid);
        n := i + 1;
        if !added {
          errors := errors + 1;
          if errors > MAX_INSERT_ERRORS {
            return false, n;
          }
        }
      }
      ok := true;
    }

    /**
      One worker, while no other is at work: all pairs of its entries, or those up to the error that is one too
      many.
     */
    method AddEntries(dryRun: bool, entries: seq<Entry>) returns (ok: bool, ghost n: nat)
      requires errors <= MAX_INSERT_ERRORS
      modifies this
      ensures n <= |PairsOf(entries)| && (ok ==> n == |PairsOf(entries)|) && (dryRun ==> ok)
      ensures Now() == if dryRun then old(Now()) else Advanced(old(Now()), PairsOf(entries)[..n], replies)
      ensures if ok then errors <= MAX_INSERT_ERRORS else errors == MAX_INSERT_ERRORS + 1
    {
      hide Advanced, PairsOf, KeyPairs, AddWith, Failures, AddAll;
      n := 0;
      NothingAdded(Now(), replies);
      assert entries[..0] == [];
      for i := 0 to |entries|
        invariant n == |PairsOf(entries[..i])| && errors <= MAX_INSERT_ERRORS
        invariant Now() == if dryRun then old(Now()) else Advanced(old(Now()), PairsOf(entries[..i]), replies)
      {
        var e := entries[i];
        PairsStep(entries, i);
        if e.keys.Some? {
          ghost var (done, next) := (PairsOf(entries[..i]), KeyPairs(e.uuid, e.keys.value));
          var good: bool;
          ghost var k: nat;
          good, k := AddKeys(dryRun, e.uuid, e.keys.value);
          AdvancedAppend(old(Now()), done, next[..k], replies);
          n := n + k;
          assert PairsOf(entries)[..n] == done + next[..k];
          if !good {
            return false, n;
          }
          assert next[..k] == next;
        }
      }
      ok := true;
      assert entries[..|entries|] == entries && PairsOf(entries)[..n] == PairsOf(entries);
    }
  }

  /** The pairs of the first entries come first. */
  lemma {:induction false} PairsGrow(entries: seq<Entry>, i: nat)
    requires i <= |entries|
    ensures PairsOf(entries[..i]) <= PairsOf(entries)
    decreases |entries| - i
  {
    if i == |entries| {
      assert entries[..i] == entries;
    } else {
      PairsGrow(entries, i + 1);
      assert entries[..i + 1][..i] == entries[..i];
    }
  }

  lemma PairsStep(entries: seq<Entry>, i: nat)
    requires i < |entries|
    ensures var (done, e) := (PairsOf(entries[..i]), entries[i]);
            && PairsOf(entries[..i + 1]) == (if e.keys.None? then done else done + KeyPairs(e.uuid, e.keys.value))
            && PairsOf(entries[..i + 1]) <= PairsOf(entries)
    ensures entries[i].keys.Some? ==> |KeyPairs(entries[i].uuid, entries[i].keys.value)| == |entries[i].keys.value|
  {
    assert entries[..i + 1][..i] == entries[..i];
    PairsGrow(entries, i + 1);
  }

  /** A worker: its pairs, how many it has added, and whether it has removed but not yet pushed the next. */
  datatype Worker = Worker(pairs: seq<Pair>, next: nat, removed: bool)

  datatype State = State(index: Index, workers: seq<Worker>)

  predicate ValidWorker(w: Worker) { w.next <= |w.pairs| && (w.removed ==> w.next < |w.pairs|) }

  predicate CanStep(s: State, i: int) { 0 <= i < |s.workers| && s.workers[i].next < |s.workers[i].pairs| }

  /** Worker `i` sends its next command. */
  function Step(s: State, i: nat): State
    requires CanStep(s, i)
  {
    var w := s.workers[i];
    var (key, uuid) := w.pairs[w.next];
    if w.removed then State(LPush(s.index, key, uuid), s.workers[i := w.(next := w.next + 1, removed := false)])
    else State(LRem(s.index, key, uuid), s.workers[i := w.(removed := true)])
  }

  /** Any interleaving: the worker that sends a command at each point. */
  predicate IsRun(s: State, order: seq<nat>)
    decreases |order|
  {
    order != [] ==> CanStep(s, order[0]) && IsRun(Step(s, order[0]), order[1..])
  }

  function After(s: State, order: seq<nat>): State
    requires IsRun(s, order)
    decreases |order|
  {
    if order == [] then s else After(Step(s, order[0]), order[1..])
  }

  predicate Done(s: State) { forall i :: 0 <= i < |s.workers| ==> s.workers[i].next == |s.workers[i].pairs| }

  function Begin(index: Index, programs: seq<seq<Pair>>): State {
    State(index, seq(|programs|, i requires 0 <= i < |programs| => Worker(programs[i], 0, false)))
  }

  /** No two workers add the same pair, as when every worker has an entry of its own. */
  predicate Disjoint(programs: seq<seq<Pair>>) {
    forall i, j, p :: 0 <= i < |programs| && 0 <= j < |programs| && i != j && p in programs[i] ==> p !in programs[j]
  }

  // ----- Safety -----

  /** What the index must hold of a pair its worker works on. */
  function CountFor(w: Worker, p: Pair, before: nat): nat
    requires ValidWorker(w)
  {
    if w.removed && w.pairs[w.next] == p then 0 else if p in w.pairs[..w.next] then 1 else before
  }

  ghost predicate Inv(start: Index, s: State) {
    && Disjoint(seq(|s.workers|, i requires 0 <= i < |s.workers| => s.workers[i].pairs))
    && (forall i :: 0 <= i < |s.workers| ==> ValidWorker(s.workers[i]))
    && (forall i, p :: 0 <= i < |s.workers| && p in s.workers[i].pairs ==>
          Count(s.index, p.0, p.1) == CountFor(s.workers[i], p, Count(start, p.0, p.1)))
    && (forall k, u ::
          (forall i :: 0 <= i < |s.workers| ==> (k, u) !in s.workers[i].pairs) ==>
            Count(s.index, k, u) == Count(start, k, u))
  }

  /** A command changes the count of its own pair only. */
  lemma StepCounts(s: State, i: nat, k: string, u: string)
    requires CanStep(s, i)
    ensures var w := s.workers[i];
            Count(Step(s, i).index, k, u)
            == if w.pairs[w.next] != (k, u) then Count(s.index, k, u)
               else if w.removed then Count(s.index, k, u) + 1 else 0
  {
    var w := s.workers[i];
    var (key, uuid) := w.pairs[w.next];
    LRemCounts(s.index, key, uuid, k, u);
    LPushCounts(s.index, key, uuid, k, u);
  }

  lemma StepOwnPair(start: Index, s: State, i: nat, p: Pair)
    requires Inv(start, s) && CanStep(s, i) && p in s.workers[i].pairs
    ensures ValidWorker(Step(s, i).workers[i])
    ensures Count(Step(s, i).index, p.0, p.1) == CountFor(Step(s, i).workers[i], p, Count(start, p.0, p.1))
  {
    hide Count, Disjoint;
    StepCounts(s, i, p.0, p.1);
    var (w, w') := (s.workers[i], Step(s, i).workers[i]);
    assert ValidWorker(w);
    if w.removed {
      assert w'.pairs[..w'.next] == w.pairs[..w.next] + [w.pairs[w.next]];
    }
  }

  lemma StepKeepsInv(start: Index, s: State, i: nat)
    requires Inv(start, s) && CanStep(s, i)
    ensures Inv(start, Step(s, i))
  {
    hide Count, CountFor;
    var s' := Step(s, i);
    var (programs, programs') := (seq(|s.workers|, j requires 0 <= j < |s.workers| => s.workers[j].pairs),
                                  seq(|s'.workers|, j requires 0 <= j < |s'.workers| => s'.workers[j].pairs));
    assert programs == programs';
    assert ValidWorker(s.workers[i]);
    forall j, p | 0 <= j < |s'.workers| && p in s'.workers[j].pairs
      ensures ValidWorker(s'.workers[j])
      ensures Count(s'.index, p.0, p.1) == CountFor(s'.workers[j], p, Count(start, p.0, p.1))
    {
      if j == i {
        StepOwnPair(start, s, i, p);
      } else {
        assert p in programs[j] && s.workers[i].pairs[s.workers[i].next] in programs[i];
        StepCounts(s, i, p.0, p.1);
      }
    }
    forall k, u | forall j :: 0 <= j < |s'.workers| ==> (k, u) !in s'.workers[j].pairs
      ensures Count(s'.index, k, u) == Count(start, k, u)
    {
      assert s'.workers[i].pairs == s.workers[i].pairs;
      assert forall j :: 0 <= j < |s.workers| ==> s.workers[j].pairs == s'.workers[j].pairs;
      StepCounts(s, i, k, u);
    }
  }

  lemma {:induction false} RunKeepsInv(start: Index, s: State, order: seq<nat>)
    requires Inv(start, s) && IsRun(s, order)
    ensures Inv(start, After(s, order))
    ensures |After(s, order).workers| == |s.workers|
    ensures forall i :: 0 <= i < |s.workers| ==> After(s, order).workers[i].pairs == s.workers[i].pairs
    decreases |order|
  {
    hide Inv;
    if order != [] {
      StepKeepsInv(start, s, order[0]);
      RunKeepsInv(start, Step(s, order[0]), order[1..]);
    }
  }

  /** The count every complete run ends with: one for a processed pair, as before for any other. */
  predicate Processed(programs: seq<seq<Pair>>, p: Pair) { exists i :: 0 <= i < |programs| && p in programs[i] }

  function FinalCount(index: Index, programs: seq<seq<Pair>>, k: string, u: string): nat {
    if Processed(programs, (k, u)) then 1 else Count(index, k, u)
  }

  lemma BeginInv(index: Index, programs: seq<seq<Pair>>)
    requires Disjoint(programs)
    ensures Inv(index, Begin(index, programs))
  {
    hide Count;
    var s := Begin(index, programs);
    assert seq(|s.workers|, i requires 0 <= i < |s.workers| => s.workers[i].pairs) == programs;
  }

  /**
    Whatever the interleaving, when all workers are done every processed pair is listed exactly
    once and every other pair as often as before.
   */
  lemma EachPairOnce(index: Index, programs: seq<seq<Pair>>, order: seq<nat>, k: string, u: string)
    requires Disjoint(programs) && IsRun(Begin(index, programs), order) && Done(After(Begin(index, programs), order))
    ensures Count(After(Begin(index, programs), order).index, k, u) == FinalCount(index, programs, k, u)
  {
    hide Count, Disjoint, IsRun, After, Inv, CountFor;
    var s := Begin(index, programs);
    BeginInv(index, programs);
    RunKeepsInv(index, s, order);
    var s' := After(s, order);
    assert forall i :: 0 <= i < |programs| ==> s'.workers[i].pairs == programs[i];
    if Processed(programs, (k, u)) {
      var i :| 0 <= i < |programs| && (k, u) in programs[i];
      FinishedPair(index, s', i, (k, u));
    } else {
      UntouchedPair(index, s', (k, u));
    }
  }

  lemma FinishedPair(start: Index, s: State, i: nat, p: Pair)
    requires Inv(start, s) && i < |s.workers| && s.workers[i].next == |s.workers[i].pairs| && p in s.workers[i].pairs
    ensures Count(s.index, p.0, p.1) == 1
  {
    hide Count, Disjoint;
    var w := s.workers[i];
    assert ValidWorker(w) && w.pairs[..w.next] == w.pairs;
  }

  lemma UntouchedPair(start: Index, s: State, p: Pair)
    requires Inv(start, s) && forall i :: 0 <= i < |s.workers| ==> p !in s.workers[i].pairs
    ensures Count(s.index, p.0, p.1) == Count(start, p.0, p.1)
  {
    hide Count, Disjoint, CountFor;
    assert p == (p.0, p.1);
  }

  /** Two interleavings end with the same multiset in every list. */
  lemma OrderDoesNotMatter(index: Index, programs: seq<seq<Pair>>, order: seq<nat>, order': seq<nat>, k: string)
    requires Disjoint(programs)
    requires IsRun(Begin(index, programs), order) && Done(After(Begin(index, programs), order))
    requires IsRun(Begin(index, programs), order') && Done(After(Begin(index, programs), order'))
    ensures multiset(List(After(Begin(index, programs), order).index, k))
            == multiset(List(After(Begin(index, programs), order').index, k))
  {
    var (a, b) := (After(Begin(index, programs), order).index, After(Begin(index, programs), order').index);
    forall u
      ensures multiset(List(a, k))[u] == multiset(List(b, k))[u]
    {
      EachPairOnce(index, programs, order, k, u);
      EachPairOnce(index, programs, order', k, u);
    }
  }

  /** Running the backfill again changes no list as a multiset. */
  lemma BackfillIsIdempotent(index: Index, programs: seq<seq<Pair>>, order: seq<nat>, again: seq<nat>, k: string)
    requires Disjoint(programs)
    requires IsRun(Begin(index, programs), order) && Done(After(Begin(index, programs), order))
    requires var once := After(Begin(index, programs), order).index;
             IsRun(Begin(once, programs), again) && Done(After(Begin(once, programs), again))
    ensures var once := After(Begin(index, programs), order).index;
            multiset(List(After(Begin(once, programs), again).index, k)) == multiset(List(once, k))
  {
    var once := After(Begin(index, programs), order).index;
    var twice := After(Begin(once, programs), again).index;
    forall u
      ensures multiset(List(twice, k))[u] == multiset(List(once, k))[u]
    {
      EachPairOnce(index, programs, order, k, u);
      EachPairOnce(once, programs, again, k, u);
    }
  }

  /** Workers of their own UUIDs share no pair. */
  lemma DistinctEntriesAreDisjoint(entries: seq<seq<Entry>>)
    requires forall i, j, a, b ::
               0 <= i < |entries| && 0 <= j < |entries| && i != j && a in entries[i] && b in entries[j]
               ==> a.uuid != b.uuid
    ensures Disjoint(seq(|entries|, i requires 0 <= i < |entries| => PairsOf(entries[i])))
  {
    var programs := seq(|entries|, i requires 0 <= i < |entries| => PairsOf(entries[i]));
    forall i, j, p | 0 <= i < |programs| && 0 <= j < |programs| && i != j && p in programs[i]
      ensures p !in programs[j]
    {
      PairsOfIff(entries[i], p);
      PairsOfIff(entries[j], p);
    }
  }

  /** A worker adds exactly the pairs of an index key and the UUID of an entry that parses. */
  lemma {:induction false} PairsOfIff(entries: seq<Entry>, p: Pair)
    ensures p in PairsOf(entries)
            <==> exists i :: && 0 <= i < |entries| && entries[i].keys.Some?
                             && p.0 in entries[i].keys.value && p.1 == entries[i].uuid
  {
    if entries != [] {
      var n := |entries| - 1;
      var (rest, e) := (entries[..n], entries[n]);
      PairsOfIff(rest, p);
      assert forall i :: 0 <= i < n ==> rest[i] == entries[i];
      if e.keys.Some? {
        var pairs := KeyPairs(e.uuid, e.keys.value);
        assert forall i :: 0 <= i < |pairs| ==> pairs[i] == (e.keys.value[i], e.uuid);
      }
    }
  }

  // ----- Refused commands -----

  /** A worker's next command is done or refused; after a refusal it goes on to its next pair. */
  datatype Event = Sent(worker: nat) | Refused(worker: nat)

  function Happen(s: State, e: Event): State
    requires CanStep(s, e.worker)
  {
    var w := s.workers[e.worker];
    match e
    case Sent(i) => Step(s, i)
    case Refused(i) => s.(workers := s.workers[i := w.(next := w.next + 1, removed := false)])
  }

  predicate IsFaultyRun(s: State, events: seq<Event>)
    decreases |events|
  {
    events != [] ==> CanStep(s, events[0].worker) && IsFaultyRun(Happen(s, events[0]), events[1..])
  }

  function AfterFaults(s: State, events: seq<Event>): State
    requires IsFaultyRun(s, events)
    decreases |events|
  {
    if events == [] then s else AfterFaults(Happen(s, events[0]), events[1..])
  }

  lemma {:induction false} FaultsAppend(s: State, a: seq<Event>, b: seq<Event>)
    requires IsFaultyRun(s, a) && IsFaultyRun(AfterFaults(s, a), b)
    ensures IsFaultyRun(s, a + b) && AfterFaults(s, a + b) == AfterFaults(AfterFaults(s, a), b)
    decreases |a|
  {
    hide Happen, CanStep;
    if a == [] {
      assert a + b == b;
    } else {
      FaultsAppend(Happen(s, a[0]), a[1..], b);
      assert (a + b)[1..] == a[1..] + b;
    }
  }

  /** The commands of one pair, as they end. */
  function EventsOf(reply: Reply): seq<Event> {
    match reply
    case Stored => [Sent(0), Sent(0)]
    case NotRemoved => [Refused(0)]
    case NotPushed => [Sent(0), Refused(0)]
  }

  lemma OnePairAlone(index: Index, pairs: seq<Pair>, n: nat, reply: Reply)
    requires n < |pairs|
    ensures var (s, s') := (State(index, [Worker(pairs, n, false)]),
                            State(Added(index, pairs[n], reply), [Worker(pairs, n + 1, false)]));
            IsFaultyRun(s, EventsOf(reply)) && AfterFaults(s, EventsOf(reply)) == s'
  {
    hide LRem, LPush;
    var s := State(index, [Worker(pairs, n, false)]);
    var events := EventsOf(reply);
    var s1 := Happen(s, events[0]);
    if |events| == 2 {
      assert events[1..] == [events[1]] && [events[1]][1..] == [];
      assert IsFaultyRun(Happen(s1, events[1]), []);
      assert IsFaultyRun(s1, events[1..]) && AfterFaults(s1, events[1..]) == Happen(s1, events[1]);
    } else {
      assert events[1..] == [] && IsFaultyRun(s1, []);
    }
  }

  /** A worker on its own, with any replies, is one of the runs with refusals. */
  lemma {:induction false} AloneIsAFaultyRun(index: Index, pairs: seq<Pair>, n: nat, replies: nat -> Reply, from: nat)
    returns (events: seq<Event>)
    requires n <= |pairs|
    ensures IsFaultyRun(Begin(index, [pairs]), events)
    ensures AfterFaults(Begin(index, [pairs]), events)
            == State(AddWith(index, pairs[..n], replies, from), [Worker(pairs, n, false)])
  {
    hide Added, IsFaultyRun, AfterFaults, EventsOf;
    if n == 0 {
      events := [];
      NoFaults(Begin(index, [pairs]));
    } else {
      var before := AloneIsAFaultyRun(index, pairs, n - 1, replies, from);
      OnePairAlone(AddWith(index, pairs[..n - 1], replies, from), pairs, n - 1, replies(from + n - 1));
      events := before + EventsOf(replies(from + n - 1));
      FaultsAppend(Begin(index, [pairs]), before, EventsOf(replies(from + n - 1)));
      assert pairs[..n][..n - 1] == pairs[..n - 1];
    }
  }

  lemma NoFaults(s: State)
    ensures IsFaultyRun(s, []) && AfterFaults(s, []) == s
  {}

  /** What a command that took effect did to a pair. */
  datatype Effect = NoEffect | Removal | Push

  function EffectOf(s: State, e: Event, p: Pair): Effect
    requires CanStep(s, e.worker)
  {
    var w := s.workers[e.worker];
    if e.Refused? || w.pairs[w.next] != p then NoEffect else if w.removed then Push else Removal
  }

  /** The last command that took effect on a pair. */
  function LastEffect(s: State, events: seq<Event>, p: Pair): Effect
    requires IsFaultyRun(s, events)
    decreases |events|
  {
    if events == [] then NoEffect
    else
      var later := LastEffect(Happen(s, events[0]), events[1..], p);
      if later != NoEffect then later else EffectOf(s, events[0], p)
  }

  function CountAfter(effect: Effect, before: nat): nat {
    match effect
    case NoEffect => before
    case Removal => 0
    case Push => 1
  }

  lemma HappenCounts(s: State, e: Event, k: string, u: string)
    requires CanStep(s, e.worker)
    ensures Count(Happen(s, e).index, k, u)
            == match EffectOf(s, e, (k, u))
               case NoEffect => Count(s.index, k, u)
               case Removal => 0
               case Push => Count(s.index, k, u) + 1
  {
    hide Count, Step;
    StepCounts(s, e.worker, k, u);
  }

  /** A pair whose worker stands between its remove and its push is not listed. */
  ghost predicate GoneBetween(s: State) {
    && Disjoint(seq(|s.workers|, i requires 0 <= i < |s.workers| => s.workers[i].pairs))
    && (forall i :: 0 <= i < |s.workers| ==> ValidWorker(s.workers[i]))
    && (forall i :: 0 <= i < |s.workers| && s.workers[i].removed ==>
          var p := s.workers[i].pairs[s.workers[i].next]; Count(s.index, p.0, p.1) == 0)
  }

  lemma HappenKeepsGone(s: State, e: Event)
    requires GoneBetween(s) && CanStep(s, e.worker)
    ensures GoneBetween(Happen(s, e))
  {
    hide Count;
    var (s', i) := (Happen(s, e), e.worker);
    var (programs, programs') := (seq(|s.workers|, j requires 0 <= j < |s.workers| => s.workers[j].pairs),
                                  seq(|s'.workers|, j requires 0 <= j < |s'.workers| => s'.workers[j].pairs));
    assert programs == programs';
    assert ValidWorker(s.workers[i]);
    forall j | 0 <= j < |s'.workers| && s'.workers[j].removed
      ensures var p := s'.workers[j].pairs[s'.workers[j].next]; Count(s'.index, p.0, p.1) == 0
    {
      var p := s'.workers[j].pairs[s'.workers[j].next];
      assert p in programs[j] && s.workers[i].pairs[s.workers[i].next] in programs[i];
      HappenCounts(s, e, p.0, p.1);
    }
  }

  lemma {:induction false} CountFollowsLastEffect(s: State, events: seq<Event>, k: string, u: string)
    requires GoneBetween(s) && IsFaultyRun(s, events)
    ensures Count(AfterFaults(s, events).index, k, u) == CountAfter(LastEffect(s, events, (k, u)), Count(s.index, k, u))
    decreases |events|
  {
    hide Count, Happen, Disjoint;
    if events != [] {
      HappenCounts(s, events[0], k, u);
      HappenKeepsGone(s, events[0]);
      CountFollowsLastEffect(Happen(s, events[0]), events[1..], k, u);
    }
  }

  /**
    Whatever is refused and wherever the workers stop: a pair is listed once if the last command that took effect
    on it was a push, not at all if it was a remove, and as often as before if there was none.
   */
  lemma CountIsExact(index: Index, programs: seq<seq<Pair>>, events: seq<Event>, k: string, u: string)
    requires Disjoint(programs) && IsFaultyRun(Begin(index, programs), events)
    ensures var s := Begin(index, programs);
            Count(AfterFaults(s, events).index, k, u) == CountAfter(LastEffect(s, events, (k, u)), Count(index, k, u))
  {
    hide Count;
    var s := Begin(index, programs);
    assert seq(|s.workers|, i requires 0 <= i < |s.workers| => s.workers[i].pairs) == programs;
    CountFollowsLastEffect(s, events, k, u);
  }

  /** No command touches a pair of no worker. */
  lemma {:induction false} OnlyOwnPairs(s: State, events: seq<Event>, p: Pair)
    requires IsFaultyRun(s, events) && forall i :: 0 <= i < |s.workers| ==> p !in s.workers[i].pairs
    ensures LastEffect(s, events, p) == NoEffect
    decreases |events|
  {
    if events != [] {
      var s' := Happen(s, events[0]);
      assert forall i :: 0 <= i < |s'.workers| ==> s'.workers[i].pairs == s.workers[i].pairs;
      OnlyOwnPairs(s', events[1..], p);
    }
  }

  function AtMost(before: nat): nat { if before < 1 then 1 else before }

  /** So no pair is listed twice that was not, and the pairs of no worker stay as they were. */
  lemma NeverDoubled(index: Index, programs: seq<seq<Pair>>, events: seq<Event>, k: string, u: string)
    requires Disjoint(programs) && IsFaultyRun(Begin(index, programs), events)
    ensures var now := Count(AfterFaults(Begin(index, programs), events).index, k, u);
            if Processed(programs, (k, u)) then now <= AtMost(Count(index, k, u)) else now == Count(index, k, u)
  {
    hide Count, Disjoint, IsFaultyRun, AfterFaults, LastEffect;
    CountIsExact(index, programs, events, k, u);
    if !Processed(programs, (k, u)) {
      OnlyOwnPairs(Begin(index, programs), events, (k, u));
    }
  }

  /**
    Running the backfill once more without a refusal repairs everything: the lists are as if nothing had gone wrong.
   */
  lemma RerunRepairs(index: Index, programs: seq<seq<Pair>>, events: seq<Event>, again: seq<nat>, k: string, u: string)
    requires Disjoint(programs) && IsFaultyRun(Begin(index, programs), events)
    requires var broken := AfterFaults(Begin(index, programs), events).index;
             IsRun(Begin(broken, programs), again) && Done(After(Begin(broken, programs), again))
    ensures var broken := AfterFaults(Begin(index, programs), events).index;
            Count(After(Begin(broken, programs), again).index, k, u) == FinalCount(index, programs, k, u)
  {
    hide Count, Disjoint, IsFaultyRun, AfterFaults, IsRun, After, Done, Begin;
    NeverDoubled(index, programs, events, k, u);
    EachPairOnce(AfterFaults(Begin(index, programs), events).index, programs, again, k, u);
  }

  // ----- Disjointness is needed -----

  predicate Complete(index: Index, programs: seq<seq<Pair>>, order: seq<nat>) {
    IsRun(Begin(index, programs), order) && Done(After(Begin(index, programs), order))
  }

  lemma {:induction false} RunAppend(s: State, a: seq<nat>, b: seq<nat>)
    requires IsRun(s, a) && IsRun(After(s, a), b)
    ensures IsRun(s, a + b) && After(s, a + b) == After(After(s, a), b)
    decreases |a|
  {
    hide Step, CanStep;
    if a == [] {
      assert a + b == b;
    } else {
      RunAppend(Step(s, a[0]), a[1..], b);
      assert (a + b)[1..] == a[1..] + b;
    }
  }

  /** Worker `i` adds a pair while all others wait. */
  lemma AddOne(s: State, i: nat, p: Pair)
    requires CanStep(s, i) && !s.workers[i].removed
    ensures var s' := s.(workers := s.workers[i := s.workers[i].(next := s.workers[i].next + 1)]);
            && IsRun(s, [i, i]) && After(s, [i, i]).workers == s'.workers
            && After(s, [i, i]).index == AddAll(s.index, [s.workers[i].pairs[s.workers[i].next]])
            && (p != s.workers[i].pairs[s.workers[i].next] ==>
                Count(After(s, [i, i]).index, p.0, p.1) == Count(s.index, p.0, p.1))
  {
    hide Count;
    var s1 := Step(s, i);
    StepCounts(s, i, p.0, p.1);
    StepCounts(s1, i, p.0, p.1);
    assert [i, i][1..] == [i] && [i][1..] == [];
    assert IsRun(Step(s1, i), []);
    assert IsRun(s1, [i]) && After(s1, [i]) == Step(s1, i);
    assert AddAll(s.index, []) == s.index;
  }

  /** Worker `i` runs up to its pair `n` while all others wait. */
  lemma {:induction false} Advance(s: State, i: nat, n: nat, p: Pair) returns (order: seq<nat>)
    requires i < |s.workers| && !s.workers[i].removed && s.workers[i].next <= n <= |s.workers[i].pairs|
    ensures IsRun(s, order) && After(s, order).workers == s.workers[i := s.workers[i].(next := n)]
    ensures After(s, order).index == AddAll(s.index, s.workers[i].pairs[s.workers[i].next..n])
    ensures p !in s.workers[i].pairs[s.workers[i].next..n] ==>
            Count(After(s, order).index, p.0, p.1) == Count(s.index, p.0, p.1)
    decreases n - s.workers[i].next
  {
    hide Count, IsRun, After, Step, AddAll;
    EmptyAdd(s.index);
    var w := s.workers[i];
    if w.next == n {
      order := [];
      EmptyRun(s);
      assert w.pairs[w.next..n] == [];
      assert s.workers[i := w.(next := n)] == s.workers;
    } else {
      AddOne(s, i, p);
      var s' := After(s, [i, i]);
      var rest := Advance(s', i, n, p);
      order := [i, i] + rest;
      RunAppend(s, [i, i], rest);
      AddAllAppend(s.index, [w.pairs[w.next]], w.pairs[w.next + 1..n]);
      assert w.pairs[w.next..n] == [w.pairs[w.next]] + w.pairs[w.next + 1..n];
    }
  }

  /** A worker on its own is one of the runs, when nothing is refused. */
  lemma AloneIsARun(index: Index, pairs: seq<Pair>, replies: nat -> Reply, from: nat) returns (order: seq<nat>)
    requires forall i :: from <= i < from + |pairs| ==> replies(i) == Stored
    ensures Complete(index, [pairs], order)
    ensures After(Begin(index, [pairs]), order).index == AddWith(index, pairs, replies, from)
  {
    AllStored(index, pairs, replies, from);
    order := Advance(Begin(index, [pairs]), 0, |pairs|, ("", ""));
    assert pairs[0..|pairs|] == pairs;
  }

  lemma EmptyAdd(index: Index)
    ensures AddAll(index, []) == index
  {}

  lemma EmptyRun(s: State)
    ensures IsRun(s, []) && After(s, []) == s
  {}

  /** All workers from `from` on, but those to skip, finish one after the other. */
  lemma {:induction false} Finish(s: State, from: nat, skip: set<nat>, p: Pair) returns (order: seq<nat>)
    requires from <= |s.workers|
    requires forall k :: 0 <= k < |s.workers| ==> !s.workers[k].removed && s.workers[k].next <= |s.workers[k].pairs|
    ensures IsRun(s, order) && |After(s, order).workers| == |s.workers|
    ensures forall k :: 0 <= k < |s.workers| ==>
              After(s, order).workers[k]
              == if k < from || k in skip then s.workers[k] else s.workers[k].(next := |s.workers[k].pairs|)
    ensures (forall k :: from <= k < |s.workers| && k !in skip ==> p !in s.workers[k].pairs[s.workers[k].next..])
            ==> Count(After(s, order).index, p.0, p.1) == Count(s.index, p.0, p.1)
    decreases |s.workers| - from
  {
    hide Count, IsRun, After, Step;
    if from == |s.workers| {
      order := [];
      EmptyRun(s);
    } else if from in skip {
      order := Finish(s, from + 1, skip, p);
    } else {
      var w := s.workers[from];
      var first := Advance(s, from, |w.pairs|, p);
      assert w.pairs[w.next..|w.pairs|] == w.pairs[w.next..];
      var rest := Finish(After(s, first), from + 1, skip, p);
      RunAppend(s, first, rest);
      order := first + rest;
    }
  }

  /** The last place of a pair. */
  lemma {:induction false} LastPlace(pairs: seq<Pair>, p: Pair) returns (k: nat)
    requires p in pairs
    ensures k < |pairs| && pairs[k] == p && p !in pairs[k + 1..]
  {
    k := |pairs| - 1;
    if pairs[k] != p {
      assert pairs == pairs[..k] + [pairs[k]];
      var j := LastPlace(pairs[..k], p);
      assert pairs[j + 1..] == pairs[..k][j + 1..] + [pairs[k]];
      k := j;
    }
  }

  /** Two workers about to add the same pair both remove it and then both push it. */
  lemma BothAdd(s: State, i: nat, j: nat, p: Pair)
    requires i != j && CanStep(s, i) && CanStep(s, j) && !s.workers[i].removed && !s.workers[j].removed
    requires s.workers[i].pairs[s.workers[i].next] == p == s.workers[j].pairs[s.workers[j].next]
    ensures IsRun(s, [i, j, i, j])
    ensures After(s, [i, j, i, j]).workers
            == s.workers[i := s.workers[i].(next := s.workers[i].next + 1)]
                        [j := s.workers[j].(next := s.workers[j].next + 1)]
    ensures Count(After(s, [i, j, i, j]).index, p.0, p.1) == 2
  {
    hide Count;
    var s1 := Step(s, i);
    var s2 := Step(s1, j);
    var s3 := Step(s2, i);
    var s4 := Step(s3, j);
    StepCounts(s1, j, p.0, p.1);
    StepCounts(s2, i, p.0, p.1);
    StepCounts(s3, j, p.0, p.1);
    assert [i, j, i, j][1..] == [j, i, j] && [j, i, j][1..] == [i, j] && [i, j][1..] == [j] && [j][1..] == [];
    assert IsRun(s4, []) && After(s4, []) == s4;
    assert IsRun(s3, [j]) && After(s3, [j]) == s4;
    assert IsRun(s2, [i, j]) && After(s2, [i, j]) == s4;
    assert IsRun(s1, [j, i, j]) && After(s1, [j, i, j]) == s4;
  }

  /** A pair that two workers add has an interleaving that ends with it listed twice. */
  lemma SharedPairIsDoubled(index: Index, programs: seq<seq<Pair>>, i: nat, j: nat, p: Pair) returns (order: seq<nat>)
    requires i < |programs| && j < |programs| && i != j && p in programs[i] && p in programs[j]
    ensures Complete(index, programs, order)
    ensures Count(After(Begin(index, programs), order).index, p.0, p.1) == 2
  {
    hide Count, IsRun, After, Step, AddAll;
    var s0 := Begin(index, programs);
    var a := LastPlace(programs[i], p);
    var b := LastPlace(programs[j], p);
    var others := Finish(s0, 0, {i, j}, p);
    var s1 := After(s0, others);
    var toI := Advance(s1, i, a, p);
    var s2 := After(s1, toI);
    var toJ := Advance(s2, j, b, p);
    var s3 := After(s2, toJ);
    BothAdd(s3, i, j, p);
    var s4 := After(s3, [i, j, i, j]);
    var rest := Finish(s4, 0, {}, p);
    RunAppend(s0, others, toI);
    RunAppend(s0, others + toI, toJ);
    RunAppend(s0, others + toI + toJ, [i, j, i, j]);
    RunAppend(s0, others + toI + toJ + [i, j, i, j], rest);
    order := others + toI + toJ + [i, j, i, j] + rest;
  }

  /** Every interleaving leaves every processed pair listed exactly once if and only if no two workers share a pair. */
  lemma EachPairOnceIffDisjoint(index: Index, programs: seq<seq<Pair>>)
    ensures Disjoint(programs)
            <==> forall order, p :: Complete(index, programs, order) && Processed(programs, p)
                   ==> Count(After(Begin(index, programs), order).index, p.0, p.1) == 1
  {
    hide Count, IsRun, After, Done, Begin;
    if Disjoint(programs) {
      forall order, p | Complete(index, programs, order) && Processed(programs, p)
        ensures Count(After(Begin(index, programs), order).index, p.0, p.1) == 1
      {
        EachPairOnce(index, programs, order, p.0, p.1);
      }
    } else {
      var i, j, p :| 0 <= i < |programs| && 0 <= j < |programs| && i != j && p in programs[i] && p in programs[j];
      var order := SharedPairIsDoubled(index, programs, i, j, p);
      assert Complete(index, programs, order) && Processed(programs, p);
    }
  }
}
