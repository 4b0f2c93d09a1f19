/**
  The client's memory of checkpoints across runs (cmd/rekor-cli/app/log_info.go): a state file
  from tree IDs and server URLs to signed checkpoints, kept as text.
 */
module LogInfo {
  import opened Basics
  import opened Checkpoints
  import opened Merkle
  import opened Signing
  import opened Verify
  import Base64
  import Consistency
  import EndToEnd
  import Entries
  import Notes = SignedNotes

  /** The state file, or None when there is none or it is not JSON. */
  type File = Option<map<string, string>>

  // ----- The state file -----

  predicate Parses(texts: map<string, string>) { forall k :: k in texts ==> ParseSigned(texts[k]).Ok? }

  /** All checkpoints of the file; one that does not parse makes the whole file unreadable. */
  function LoadAll(file: File): map<string, SignedCheckpoint> {
    if file.Some? && Parses(file.value) then map k | k in file.value :: ParseSigned(file.value[k]).value else map[]
  }

  function Load(file: File, key: string): Option<SignedCheckpoint> {
    if key in LoadAll(file) then Some(LoadAll(file)[key]) else None
  }

  /** How writing the file ends: done, refused before it was opened, or broken off after it was truncated. */
  datatype Write = Written | Untouched | Torn

  /** Checkpoints of empty logs are not stored. A torn file is no JSON any more. */
  function Dump(file: File, key: string, sth: SignedCheckpoint, w: Write): File {
    if sth.checkpoint.size == 0 then file
    else
      match w
      case Written =>
        var all := LoadAll(file)[key := sth];
        Some(map k | k in all :: Notes.Print(all[k].note))
      case Untouched => file
      case Torn => None
  }

  /** A checkpoint some text parses to. */
  ghost predicate IsParsed(sth: SignedCheckpoint) { exists data: string :: ParseSigned(data) == Ok(sth) }

  lemma ParsedPrints(sth: SignedCheckpoint)
    requires IsParsed(sth)
    ensures ParseSigned(Notes.Print(sth.note)) == Ok(sth)
  {
    var data: string :| ParseSigned(data) == Ok(sth);
    hide ParseSigned, Notes.Print;
    StoredCheckpointRoundTrip(data);
    ParsedNote(data);
  }

  lemma ParsedNote(data: string)
    requires ParseSigned(data).Ok?
    ensures ParseSigned(data).value.note == Notes.Parse(data).value
  {
    hide Notes.Parse, Parse;
  }

  /**
    What is dumped is loaded again as the same checkpoint, and nothing else changes, even in a file that was
    unreadable; a torn write loses every checkpoint of the file.
   */
  lemma DumpThenLoad(file: File, key: string, sth: SignedCheckpoint, w: Write, k: string)
    requires IsParsed(sth)
    ensures Load(Dump(file, key, sth, w), k)
            == if sth.checkpoint.size == 0 || w.Untouched? then Load(file, k)
               else if w.Torn? then None
               else if k == key then Some(sth) else Load(file, k)
  {
    hide ParseSigned, Notes.Print;
    if w.Written? && sth.checkpoint.size != 0 {
      var all := LoadAll(file)[key := sth];
      var texts := Dump(file, key, sth, w).value;
      forall j | j in texts
        ensures ParseSigned(texts[j]) == Ok(all[j])
      {
        if j != key {
          assert ParseSigned(file.value[j]) == Ok(all[j]);
        }
        ParsedPrints(all[j]);
      }
    }
  }

  // ----- One verification -----

  /** One call of `verifyTree` with everything the server and the file system answer. */
  datatype Call = Call(
    head: string,
    serverURL: string,
    treeID: string,
    key: Option<Key>,
    answer: Option<seq<string>>,
    store: bool,
    firstWrite: Write,
    secondWrite: Write)

  /** The checkpoint a call is compared with. */
  function Previous(file: File, c: Call): Option<SignedCheckpoint> {
    if c.treeID != "" then Load(file, c.treeID) else Load(file, c.serverURL)
  }

  /** The call succeeds: a parsed, signed head, consistent with what was stored. */
  predicate Succeeds(sha: Sha, scheme: Scheme, file: File, c: Call) {
    var sth, before := ParseSigned(c.head), Previous(file, c);
    && sth.Ok? && c.key.Some? && Notes.Verifies(scheme, sth.value.note, c.key.value)
    && (before.Some? ==> Consistent(sha, before.value.checkpoint, sth.value.checkpoint, c.answer))
  }

  /** The state file after the call. */
  function FileAfter(sha: Sha, scheme: Scheme, file: File, c: Call): File {
    if !Succeeds(sha, scheme, file, c) || !c.store then file
    else
      var sth := ParseSigned(c.head).value;
      Dump(if c.treeID != "" then Dump(file, c.treeID, sth, c.firstWrite) else file, c.serverURL, sth, c.secondWrite)
  }

  /**
    What a call leaves under each key: nothing new without success, without the wish to store or for an empty log, and
    else the head, under the server URL and under the tree ID if there is one, as far as the writes went through.
   */
  lemma StoredByCall(sha: Sha, scheme: Scheme, file: File, c: Call, k: string)
    ensures var (file', stored) := (FileAfter(sha, scheme, file, c), Load(FileAfter(sha, scheme, file, c), k));
            if !c.store || !Succeeds(sha, scheme, file, c) || ParseSigned(c.head).value.checkpoint.size == 0 then
              file' == file
            else if c.secondWrite.Torn? then stored == None
            else if k == c.serverURL && c.secondWrite.Written? then stored == Some(ParseSigned(c.head).value)
            else if c.treeID != "" && c.firstWrite.Torn? then stored == None
            else if c.treeID != "" && c.firstWrite.Written? && k == c.treeID then
              stored == Some(ParseSigned(c.head).value)
            else stored == Load(file, k)
  {
    hide Load, ParseSigned, Notes.Verifies, Consistent, LoadAll;
    if Succeeds(sha, scheme, file, c) && c.store && ParseSigned(c.head).value.checkpoint.size != 0 {
      var sth := ParseSigned(c.head).value;
      assert IsParsed(sth) by {
        assert ParseSigned(c.head) == Ok(sth);
      }
      DumpThenLoad(file, c.treeID, sth, c.firstWrite, k);
      var first := if c.treeID != "" then Dump(file, c.treeID, sth, c.firstWrite) else file;
      DumpThenLoad(first, c.serverURL, sth, c.secondWrite, k);
    }
  }

  /** The head of a call that succeeds carries a signature over its text that the call's key verifies. */
  lemma SucceedsIsSigned(sha: Sha, scheme: Scheme, file: File, c: Call) returns (i: nat)
    requires Succeeds(sha, scheme, file, c)
    ensures ParseSigned(c.head).Ok? && c.key.Some?
    ensures var n := ParseSigned(c.head).value.note;
            && i < |n.signatures| && Some(n.signatures[i].hint) == scheme.hint(c.key.value)
            && Base64.Decode(n.signatures[i].base64).Some?
            && scheme.verify(c.key.value, Base64.Decode(n.signatures[i].base64).value, n.text)
  {
    hide ParseSigned, Load, Consistent, Base64.Decode;
    var n := ParseSigned(c.head).value.note;
    i :| 0 <= i < |n.signatures| && Notes.FirstWithHint(n.signatures, scheme.hint(c.key.value).value, i)
         && Notes.SignatureHolds(scheme, c.key.value, n.signatures[i], n.text);
  }

  class Client {
    var file: File

    constructor ()
      ensures file == None
    {
      file := None;
    }

    method VerifyTree(sha: Sha, scheme: Scheme, c: Call) returns (ok: bool)
      modifies this
      ensures ok == Succeeds(sha, scheme, old(file), c)
      ensures file == FileAfter(sha, scheme, old(file), c)
    {
      hide ParseSigned, Notes.Verifies, Consistent, Load, Dump;
      var oldState := Load(file, c.serverURL);
      if c.treeID != "" {
        oldState := Load(file, c.treeID);
      }
      var sth := ParseSigned(c.head);
      if sth.Err? {
        return false;
      }
      if c.key.None? {
        return false;
      }
      if !Notes.Verifies(scheme, sth.value.note, c.key.value) {
        return false;
      }
      if oldState.Some? {
        var consistent := ProveConsistency(sha, oldState.value.checkpoint, sth.value.checkpoint, c.answer);
        if !consistent {
          return false;
        }
      }
      if c.store {
        if c.treeID != "" {
          file := Dump(file, c.treeID, sth.value, c.firstWrite);
        }
        file := Dump(file, c.serverURL, sth.value, c.secondWrite);
      }
      return true;
    }

    /** `verifyInactiveTrees`: shard after shard until one fails. */
    method VerifyTrees(sha: Sha, scheme: Scheme, calls: seq<Call>) returns (ok: bool)
      modifies this
      ensures ok <==> forall i :: 0 <= i < |calls| ==> SucceedsAt(sha, scheme, old(file), calls, i)
      ensures exists n :: && 0 <= n <= |calls| && file == FileAfterAll(sha, scheme, old(file), calls[..n])
                          && (forall i :: 0 <= i < n ==> SucceedsAt(sha, scheme, old(file), calls, i))
                          && (n < |calls| ==> !SucceedsAt(sha, scheme, old(file), calls, n))
    {
      hide FileAfter, Succeeds;
      assert calls[..0] == [];
      for i := 0 to |calls|
        invariant file == FileAfterAll(sha, scheme, old(file), calls[..i])
        invariant forall j :: 0 <= j < i ==> SucceedsAt(sha, scheme, old(file), calls, j)
      {
        assert calls[..i + 1][..i] == calls[..i];
        var good := VerifyTree(sha, scheme, calls[i]);
        if !good {
          assert !SucceedsAt(sha, scheme, old(file), calls, i);
          FailureKeepsFile(sha, scheme, old(file), calls, i);
          return false;
        }
      }
      return true;
    }
  }

  // ----- Runs -----

  /** Call `i` succeeds after the calls before it. */
  predicate SucceedsAt(sha: Sha, scheme: Scheme, start: File, calls: seq<Call>, i: nat)
    requires i < |calls|
  {
    Succeeds(sha, scheme, FileAfterAll(sha, scheme, start, calls[..i]), calls[i])
  }

  lemma FailureKeepsFile(sha: Sha, scheme: Scheme, start: File, calls: seq<Call>, i: nat)
    requires i < |calls| && !SucceedsAt(sha, scheme, start, calls, i)
    ensures FileAfter(sha, scheme, FileAfterAll(sha, scheme, start, calls[..i]), calls[i])
            == FileAfterAll(sha, scheme, start, calls[..i])
  {
    hide Succeeds, Dump;
  }

  function FileAfterAll(sha: Sha, scheme: Scheme, file: File, calls: seq<Call>): File {
    if calls == [] then file
    else FileAfter(sha, scheme, FileAfterAll(sha, scheme, file, calls[..|calls| - 1]), calls[|calls| - 1])
  }

  /** The checkpoint stored under a key after the first `i` calls, from whatever file there was. */
  function StoredAt(sha: Sha, scheme: Scheme, start: File, calls: seq<Call>, key: string,
                    i: nat): Option<SignedCheckpoint>
    requires i <= |calls|
  {
    Load(FileAfterAll(sha, scheme, start, calls[..i]), key)
  }

  /** The call names no tree but the key's own when its server URL is the key. */
  predicate OwnKey(serverURL: string, treeID: string, key: string) {
    serverURL == key ==> treeID == "" || treeID == key
  }

  predicate Tears(c: Call) { c.firstWrite.Torn? || c.secondWrite.Torn? }

  /** Every call of the run is such a call, and no write is torn. */
  predicate IsTreeKey(calls: seq<Call>, key: string) {
    forall i :: 0 <= i < |calls| ==> OwnKey(calls[i].serverURL, calls[i].treeID, key) && !Tears(calls[i])
  }

  /** The new value is the verified head of the call, consistent with the value it replaces. */
  predicate Replaces(sha: Sha, scheme: Scheme, c: Call, before: Option<SignedCheckpoint>,
                     next: Option<SignedCheckpoint>) {
    && next.Some? && ParseSigned(c.head) == Ok(next.value) && next.value.checkpoint.size != 0
    && c.key.Some? && Notes.Verifies(scheme, next.value.note, c.key.value)
    && (before.Some? ==> Consistent(sha, before.value.checkpoint, next.value.checkpoint, c.answer))
  }

  /** One call leaves a tree's checkpoint alone or replaces it by a verified, consistent one. */
  lemma CallKeepsOrReplaces(sha: Sha, scheme: Scheme, file: File, c: Call, key: string)
    requires OwnKey(c.serverURL, c.treeID, key) && !Tears(c)
    ensures var file' := FileAfter(sha, scheme, file, c);
            Load(file', key) == Load(file, key) || Replaces(sha, scheme, c, Load(file, key), Load(file', key))
  {
    hide Dump, Load, ParseSigned, Notes.Verifies, Consistent;
    if Succeeds(sha, scheme, file, c) && c.store {
      var sth := ParseSigned(c.head).value;
      assert IsParsed(sth) by {
        assert ParseSigned(c.head) == Ok(sth);
      }
      DumpThenLoad(file, c.treeID, sth, c.firstWrite, key);
      var first := if c.treeID != "" then Dump(file, c.treeID, sth, c.firstWrite) else file;
      DumpThenLoad(first, c.serverURL, sth, c.secondWrite, key);
    }
  }

  lemma StepOfRun(sha: Sha, scheme: Scheme, start: File, calls: seq<Call>, key: string, i: nat)
    requires IsTreeKey(calls, key) && i < |calls|
    ensures var (before, next) :=
            (StoredAt(sha, scheme, start, calls, key, i), StoredAt(sha, scheme, start, calls, key, i + 1));
            next == before || Replaces(sha, scheme, calls[i], before, next)
  {
    hide FileAfter, Load, Replaces;
    assert calls[..i + 1][..i] == calls[..i];
    CallKeepsOrReplaces(sha, scheme, FileAfterAll(sha, scheme, start, calls[..i]), calls[i], key);
  }

  /** Over every run the checkpoints stored for a tree never shrink, and of one size there is only one. */
  lemma {:induction false} StoredNeverShrinks(sha: Sha, scheme: Scheme, start: File, calls: seq<Call>, key: string,
                                              i: nat, j: nat)
    requires IsTreeKey(calls, key) && i <= j <= |calls|
    requires StoredAt(sha, scheme, start, calls, key, i).Some?
    ensures var (a, b) := (StoredAt(sha, scheme, start, calls, key, i), StoredAt(sha, scheme, start, calls, key, j));
            && b.Some? && a.value.checkpoint.size <= b.value.checkpoint.size
            && (a.value.checkpoint.size == b.value.checkpoint.size ==>
                a.value.checkpoint.hash == b.value.checkpoint.hash)
  {
    hide StoredAt, Consistent, ParseSigned, Notes.Verifies;
    if i < j {
      StoredNeverShrinks(sha, scheme, start, calls, key, i, j - 1);
      StepOfRun(sha, scheme, start, calls, key, j - 1);
      var (b, c) := (StoredAt(sha, scheme, start, calls, key, j - 1), StoredAt(sha, scheme, start, calls, key, j));
      if b != c {
        ConsistentNeverShrinks(sha, b.value.checkpoint, c.value.checkpoint, calls[j - 1].answer);
      }
    }
  }

  /** The call stores its head under the tree it names. */
  predicate Stores(c: Call) {
    c.store && c.treeID != "" && c.firstWrite.Written? && ParseSigned(c.head).Ok?
    && ParseSigned(c.head).value.checkpoint.size != 0
  }

  /**
    Once a call has stored the head of a tree, no later call of the run succeeds for that tree with a smaller head, or
    with one of the same size and another root, whatever the server answers and whatever the calls in between do.
   */
  lemma RollbackIsRefused(sha: Sha, scheme: Scheme, start: File, calls: seq<Call>, key: string, i: nat, j: nat)
    requires IsTreeKey(calls, key) && i < j < |calls|
    requires calls[i].treeID == key && Stores(calls[i]) && SucceedsAt(sha, scheme, start, calls, i)
    requires calls[j].treeID == key && ParseSigned(calls[j].head).Ok?
    requires var (a, b) := (ParseSigned(calls[i].head).value.checkpoint, ParseSigned(calls[j].head).value.checkpoint);
             b.size < a.size || (b.size == a.size && b.hash != a.hash)
    ensures !SucceedsAt(sha, scheme, start, calls, j)
  {
    hide FileAfter, Load, ParseSigned, Notes.Verifies, Consistent;
    assert calls[..i + 1][..i] == calls[..i];
    StoredByCall(sha, scheme, FileAfterAll(sha, scheme, start, calls[..i]), calls[i], key);
    assert StoredAt(sha, scheme, start, calls, key, i + 1) == Some(ParseSigned(calls[i].head).value);
    StoredNeverShrinks(sha, scheme, start, calls, key, i + 1, j);
    if SucceedsAt(sha, scheme, start, calls, j) {
      var before := StoredAt(sha, scheme, start, calls, key, j).value.checkpoint;
      ConsistentNeverShrinks(sha, before, ParseSigned(calls[j].head).value.checkpoint, calls[j].answer);
    }
  }

  /** Every checkpoint stored for a tree since the start was parsed and verified by the call that stored it. */
  lemma {:induction false} StoredWasVerified(sha: Sha, scheme: Scheme, start: File, calls: seq<Call>, key: string,
                                             i: nat)
    requires IsTreeKey(calls, key) && i <= |calls|
    requires StoredAt(sha, scheme, start, calls, key, i) != StoredAt(sha, scheme, start, calls, key, 0)
    ensures exists j :: 0 <= j < i && VerifiedBy(scheme, calls[j], StoredAt(sha, scheme, start, calls, key, i))
  {
    hide StoredAt, Consistent, ParseSigned, Notes.Verifies;
    if i > 0 {
      StepOfRun(sha, scheme, start, calls, key, i - 1);
      if StoredAt(sha, scheme, start, calls, key, i) == StoredAt(sha, scheme, start, calls, key, i - 1) {
        StoredWasVerified(sha, scheme, start, calls, key, i - 1);
      } else {
        assert VerifiedBy(scheme, calls[i - 1], StoredAt(sha, scheme, start, calls, key, i));
      }
    }
  }

  /** The checkpoint is the head of the call, signed by the call's key. */
  predicate VerifiedBy(scheme: Scheme, c: Call, sth: Option<SignedCheckpoint>) {
    sth.Some? && ParseSigned(c.head) == Ok(sth.value) && c.key.Some?
      && Notes.Verifies(scheme, sth.value.note, c.key.value)
  }

  /** The log is the one the checkpoint commits to. */
  predicate Commits(sha: Sha, c: Checkpoint, log: seq<Bytes>) { c.size == |log| && c.hash == TreeHash(sha, log) }

  /** The proof accepted by call `t` collides. */
  predicate CollidesAt(sha: Sha, calls: seq<Call>, logs: seq<seq<Bytes>>, t: nat)
    requires |logs| == |calls| + 1
  {
    t < |calls| && IsCollision(sha, ConsistentPair(sha, logs[t], logs[t + 1], calls[t].answer))
  }

  /**
    Over every run with any server answers, the logs behind the checkpoints stored for a tree form an
    append-only chain, or one of the accepted consistency proofs yields a hash collision.
   */
  lemma {:induction false} StoredChainIsAppendOnly(sha: Sha, scheme: Scheme, start: File, calls: seq<Call>, key: string,
                                                   logs: seq<seq<Bytes>>, i: nat, j: nat)
    requires IsTreeKey(calls, key) && i <= j <= |calls| && |logs| == |calls| + 1
    requires forall t :: 0 <= t <= |calls| && StoredAt(sha, scheme, start, calls, key, t).Some? ==>
                           Commits(sha, StoredAt(sha, scheme, start, calls, key, t).value.checkpoint, logs[t])
    requires forall t ::
               && 0 <= t < |calls|
               && StoredAt(sha, scheme, start, calls, key, t) == StoredAt(sha, scheme, start, calls, key, t + 1)
               ==> logs[t] == logs[t + 1]
    requires StoredAt(sha, scheme, start, calls, key, i).Some?
    ensures logs[i] <= logs[j] || exists t :: CollidesAt(sha, calls, logs, t)
  {
    hide StoredAt, Consistent, ParseSigned, Notes.Verifies, ConsistentPair, TreeHash;
    if i < j {
      StoredChainIsAppendOnly(sha, scheme, start, calls, key, logs, i, j - 1);
      StepOfRun(sha, scheme, start, calls, key, j - 1);
      StoredNeverShrinks(sha, scheme, start, calls, key, i, j - 1);
      var (b, c) := (StoredAt(sha, scheme, start, calls, key, j - 1), StoredAt(sha, scheme, start, calls, key, j));
      if b != c {
        ConsistentExtends(sha, b.value.checkpoint, c.value.checkpoint, calls[j - 1].answer, logs[j - 1], logs[j]);
        if !(logs[j - 1] <= logs[j]) {
          assert CollidesAt(sha, calls, logs, j - 1);
        }
      } else {
        assert logs[(j - 1) + 1] == logs[j - 1];
      }
    }
  }

  /**
    Any other call overwrites: with the key as its server URL and another tree named, the head that was
    stored under the key is neither looked at nor kept.
   */
  lemma SharedKeyIsOverwritten(sha: Sha, scheme: Scheme, file: File, c: Call, key: string)
    requires c.serverURL == key && !OwnKey(c.serverURL, c.treeID, key) && c.store && c.secondWrite.Written?
    requires Succeeds(sha, scheme, file, c) && ParseSigned(c.head).value.checkpoint.size != 0
    ensures Load(FileAfter(sha, scheme, file, c), key) == Some(ParseSigned(c.head).value)
  {
    hide ParseSigned, Dump, Load, Notes.Verifies, Consistent;
    var sth := ParseSigned(c.head).value;
    assert IsParsed(sth) by {
      assert ParseSigned(c.head) == Ok(sth);
    }
    DumpThenLoad(Dump(file, c.treeID, sth, c.firstWrite), key, sth, c.secondWrite, key);
  }

  /** A head that parses and that the key accepts. */
  predicate IsHead(scheme: Scheme, head: string, key: Key) {
    ParseSigned(head).Ok? && Notes.Verifies(scheme, ParseSigned(head).value.note, key)
  }

  /** A torn write loses all keys, and after it any verified head is taken for any tree, however small. */
  lemma TornWriteForgets(sha: Sha, scheme: Scheme, file: File, c: Call, key: string, next: Call)
    requires Succeeds(sha, scheme, file, c) && c.store && c.secondWrite.Torn?
    requires ParseSigned(c.head).value.checkpoint.size != 0
    requires next.key.Some? && IsHead(scheme, next.head, next.key.value)
    ensures var file' := FileAfter(sha, scheme, file, c);
            Load(file', key) == None && Succeeds(sha, scheme, file', next)
  {
    hide ParseSigned, Load, Notes.Verifies, Consistent;
    NothingStored(key);
    NothingStored(next.treeID);
    NothingStored(next.serverURL);
  }

  lemma NothingStored(key: string)
    ensures Load(None, key) == None
  {}

  /** The server URL and tree ID of a call, and whether its writes may be torn. */
  datatype Shape = Shape(serverURL: string, treeID: string, mayTear: bool)

  predicate HasShape(calls: seq<Call>, shapes: seq<Shape>) {
    && |calls| == |shapes|
    && (forall i :: 0 <= i < |calls| ==>
        calls[i].serverURL == shapes[i].serverURL && calls[i].treeID == shapes[i].treeID)
    && (forall i :: 0 <= i < |calls| && Tears(calls[i]) ==> shapes[i].mayTear)
  }

  /** Calls of the shape leave what is stored under the key alone or replace it consistently. */
  predicate Safe(s: Shape, key: string) { OwnKey(s.serverURL, s.treeID, key) && !s.mayTear }

  /** What is stored under the key is neither lost nor smaller from call `i` to call `j`. */
  predicate NeverShrinks(sha: Sha, scheme: Scheme, start: File, calls: seq<Call>, key: string, i: nat, j: nat)
    requires i <= j <= |calls|
  {
    var (a, b) := (StoredAt(sha, scheme, start, calls, key, i), StoredAt(sha, scheme, start, calls, key, j));
    a.Some? ==> b.Some? && a.value.checkpoint.size <= b.value.checkpoint.size
  }

  /** It does so from every start, with every answer, over every run of those shapes. */
  ghost predicate ChainHolds(sha: Sha, scheme: Scheme, shapes: seq<Shape>, key: string) {
    forall start: File, calls: seq<Call>, i: nat, j: nat ::
      HasShape(calls, shapes) && i <= j <= |calls| ==> NeverShrinks(sha, scheme, start, calls, key, i, j)
  }

  /** Calls without a key fail and leave the file alone; call `t` presents the head. */
  function Failing(shapes: seq<Shape>, t: nat, head: string, key: Key, w: Write): seq<Call> {
    seq(|shapes|, i requires 0 <= i < |shapes| =>
      Call(head, shapes[i].serverURL, shapes[i].treeID, if i == t then Some(key) else None, None, true, Written,
           if i == t then w else Written))
  }

  lemma {:induction false} FailingKeepsFile(sha: Sha, scheme: Scheme, start: File, shapes: seq<Shape>, t: nat,
                                            head: string, key: Key, w: Write, i: nat)
    requires i <= t < |shapes|
    ensures FileAfterAll(sha, scheme, start, Failing(shapes, t, head, key, w)[..i]) == start
  {
    hide ParseSigned, Dump, Load, Notes.Verifies;
    if i > 0 {
      var calls := Failing(shapes, t, head, key, w);
      FailingKeepsFile(sha, scheme, start, shapes, t, head, key, w, i - 1);
      assert calls[..i][..i - 1] == calls[..i - 1];
    }
  }

  /** A file that holds one head under one key. */
  lemma StartWith(key: string, head: string, k: string) returns (start: File)
    requires ParseSigned(head).Ok? && ParseSigned(head).value.checkpoint.size != 0
    ensures Load(start, key) == Some(ParseSigned(head).value)
    ensures k != key ==> Load(start, k) == None
  {
    hide ParseSigned, Dump, Load;
    var x := ParseSigned(head).value;
    assert IsParsed(x) by {
      assert ParseSigned(head) == Ok(x);
    }
    start := Dump(None, key, x, Written);
    NothingStored(k);
    DumpThenLoad(None, key, x, Written, key);
    DumpThenLoad(None, key, x, Written, k);
  }

  /** One call that names another tree replaces a larger head by a smaller one. */
  lemma WrongKeyShrinks(sha: Sha, scheme: Scheme, shapes: seq<Shape>, key: string, t: nat, large: string, small: string,
                        k: Key)
    requires t < |shapes| && !OwnKey(shapes[t].serverURL, shapes[t].treeID, key)
    requires IsHead(scheme, large, k) && IsHead(scheme, small, k)
    requires 0 < ParseSigned(small).value.checkpoint.size < ParseSigned(large).value.checkpoint.size
    ensures !ChainHolds(sha, scheme, shapes, key)
  {
    hide ParseSigned, Dump, Load, Notes.Verifies, FileAfter, ChainHolds;
    var start := StartWith(key, large, shapes[t].treeID);
    var calls := Failing(shapes, t, small, k, Written);
    FailingKeepsFile(sha, scheme, start, shapes, t, small, k, Written, t);
    assert calls[..t + 1][..t] == calls[..t];
    SharedKeyIsOverwritten(sha, scheme, start, calls[t], key);
    NotForEver(sha, scheme, shapes, key, start, calls, t);
  }

  /** One torn write loses the head. */
  lemma TornWriteLoses(sha: Sha, scheme: Scheme, shapes: seq<Shape>, key: string, t: nat, head: string, k: Key)
    requires t < |shapes| && shapes[t].mayTear
    requires IsHead(scheme, head, k) && 0 < ParseSigned(head).value.checkpoint.size
    ensures !ChainHolds(sha, scheme, shapes, key)
  {
    hide ParseSigned, Dump, Load, Notes.Verifies, FileAfter, ChainHolds, Consistent;
    var s := shapes[t];
    var compared := if s.treeID != "" then s.treeID else s.serverURL;
    var start := StartWith(key, head, compared);
    var calls := Failing(shapes, t, head, k, Torn);
    FailingKeepsFile(sha, scheme, start, shapes, t, head, k, Torn, t);
    assert calls[..t + 1][..t] == calls[..t];
    SameHeadIsConsistent(sha, ParseSigned(head).value.checkpoint);
    TornWriteForgets(sha, scheme, start, calls[t], key, calls[t]);
    NotForEver(sha, scheme, shapes, key, start, calls, t);
  }

  lemma SameHeadIsConsistent(sha: Sha, c: Checkpoint)
    requires 0 < c.size
    ensures Consistent(sha, c, c, None)
  {
    CastsAreInverse(c.size);
  }

  lemma NotForEver(sha: Sha, scheme: Scheme, shapes: seq<Shape>, key: string, start: File, calls: seq<Call>, t: nat)
    requires HasShape(calls, shapes) && t < |calls| && !NeverShrinks(sha, scheme, start, calls, key, t, t + 1)
    ensures !ChainHolds(sha, scheme, shapes, key)
  {
    hide NeverShrinks, HasShape;
  }

  /**
    The stored chain holds over every run of given shapes if and only if every call whose server URL is the key
    names no tree or the key itself and no write may be torn, as soon as there are two verified heads of different
    sizes.
   */
  lemma ChainHoldsIff(sha: Sha, scheme: Scheme, shapes: seq<Shape>, key: string, large: string, small: string, k: Key)
    requires IsHead(scheme, large, k) && IsHead(scheme, small, k)
    requires 0 < ParseSigned(small).value.checkpoint.size < ParseSigned(large).value.checkpoint.size
    ensures ChainHolds(sha, scheme, shapes, key) <==> forall t :: 0 <= t < |shapes| ==> Safe(shapes[t], key)
  {
    hide ParseSigned, IsHead, StoredAt;
    if t :| 0 <= t < |shapes| && !Safe(shapes[t], key) {
      if shapes[t].mayTear {
        TornWriteLoses(sha, scheme, shapes, key, t, large, k);
      } else {
        WrongKeyShrinks(sha, scheme, shapes, key, t, large, small, k);
      }
    } else {
      forall start: File, calls: seq<Call>, i: nat, j: nat | HasShape(calls, shapes) && i <= j <= |calls|
        ensures NeverShrinks(sha, scheme, start, calls, key, i, j)
      {
        assert forall t :: 0 <= t < |calls| ==> Safe(shapes[t], key);
        if StoredAt(sha, scheme, start, calls, key, i).Some? {
          StoredNeverShrinks(sha, scheme, start, calls, key, i, j);
        }
      }
    }
  }

  // ----- An honest log -----

  /**
    The published head of a log that has only grown since the head stored for it, with the hashes of the RFC 6962
    proof in hexadecimal, makes the call succeed: an honest log is never refused.
   */
  lemma HonestHeadSucceeds(sha: Sha, scheme: Scheme, file: File, c: Call, hostname: string, tid: int,
                           signers: seq<Signer>, past: nat, log: seq<Bytes>)
    requires scheme.Correct() && |log| < TWO_63
    requires PublishedNote(scheme, hostname, tid, |log|, TreeHash(sha, log), signers).Some?
    requires var n := PublishedNote(scheme, hostname, tid, |log|, TreeHash(sha, log), signers).value;
             Publishable(hostname, n) && c.head == Notes.Print(n)
    requires signers != [] && c.key == Some(signers[0].key)
    requires Previous(file, c).Some? ==>
               && 0 < past <= |log| && Commits(sha, Previous(file, c).value.checkpoint, log[..past])
               && c.answer == Some(Entries.HexAll(Consistency.SubProof(sha, past, log, true)))
    ensures Succeeds(sha, scheme, file, c)
    ensures ParseSigned(c.head).value.checkpoint.size == |log|
  {
    hide PublishedNote, Publishable, Notes.Print, ParseSigned, Load, TreeHash, Consistency.SubProof, Entries.HexAll,
      Notes.Verifies, DecodeAll, Consistency.AcceptsConsistency;
    PublishedRoundTrip(scheme, hostname, tid, |log|, TreeHash(sha, log), signers);
    PublishedVerifies(scheme, hostname, tid, |log|, TreeHash(sha, log), signers, 0);
    if Previous(file, c).Some? {
      Consistency.ConsistencyCompleteness(sha, past, log);
      EndToEnd.DecodeHexAll(Consistency.SubProof(sha, past, log, true));
      assert past == |log| ==> log[..past] == log;
    }
  }
}
