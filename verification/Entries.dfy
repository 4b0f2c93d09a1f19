/** How the server assembles signed log entries (pkg/api/entries.go, pkg/api/api.go). */
module Entries {
  import opened Basics
  import opened Checkpoints
  import opened EntryIDs
  import opened Merkle
  import opened Sharding
  import opened Signing
  import opened Text
  import opened Verify
  import Base64
  import Hex
  import Numerals
  import Notes = SignedNotes
  import Trillian = TrillianClients

  // ----- Signing an entry -----

  /** The body of an entry as JSON: base64, or null for the nil slice of an empty leaf. */
  function JsonBody(value: Bytes): Json { if value == [] then JNull else JString(Base64.Encode(value)) }

  /** The members of an entry before it has a verification, in the order the server marshals them. */
  function ServerFields(value: Bytes, time: int, logID: string, index: int): Fields {
    [("body", JsonBody(value)), ("integratedTime", JNumber(time)), ("logID", JString(logID)),
     ("logIndex", JNumber(index))]
  }

  /** One signature of the payload for each signer, or None when one of them fails. */
  function SignPayload(scheme: Scheme, signers: seq<Signer>, payload: string): Option<seq<Bytes>> {
    if signers == [] then Some([])
    else
      var n := |signers| - 1;
      var before, last := SignPayload(scheme, signers[..n], payload), scheme.sign(signers[n], payload);
      if before.None? || last.None? then None else Some(before.value + [last.value])
  }

  /** All signatures, each paired with the log ID of its signer. */
  function SignEntry(env: Env, signers: seq<Signer>, logIDs: seq<string>, fields: Fields): Option<seq<Bytes>> {
    if signers == [] || |signers| != |logIDs| then None
    else SignPayload(env.scheme, signers, env.canonical(ObjectOf(fields)))
  }

  method SignEntryMultiple(env: Env, signers: seq<Signer>, logIDs: seq<string>, fields: Fields)
    returns (r: Result<(seq<Bytes>, seq<string>)>)
    ensures match SignEntry(env, signers, logIDs, fields)
            case None => r.Err?
            case Some(sigs) => r == Ok((sigs, logIDs))
  {
    if |signers| == 0 {
      return Err("no signers provided");
    }
    if |signers| != |logIDs| {
      return Err("signers and logIDs length mismatch");
    }
    var payload := env.canonical(ObjectOf(fields));
    var signatures: seq<Bytes> := [];
    for i := 0 to |signers|
      invariant SignPayload(env.scheme, signers[..i], payload) == Some(signatures)
    {
      assert signers[..i + 1][..i] == signers[..i];
      var sig := env.scheme.sign(signers[i], payload);
      if sig.None? {
        SignPayloadFails(env.scheme, signers, payload, i);
        return Err("signing error");
      }
      signatures := signatures + [sig.value];
    }
    assert signers[..|signers|] == signers;
    r := Ok((signatures, logIDs));
  }

  lemma {:induction false} SignPayloadFails(scheme: Scheme, signers: seq<Signer>, payload: string, i: nat)
    requires i < |signers| && scheme.sign(signers[i], payload).None?
    ensures SignPayload(scheme, signers, payload).None?
  {
    var n := |signers| - 1;
    if i < n {
      SignPayloadFails(scheme, signers[..n], payload, i);
    }
  }

  lemma {:induction false} SignPayloadInOrder(scheme: Scheme, signers: seq<Signer>, payload: string)
    requires SignPayload(scheme, signers, payload).Some?
    ensures var sigs := SignPayload(scheme, signers, payload).value;
            && |sigs| == |signers|
            && forall i :: 0 <= i < |sigs| ==> scheme.sign(signers[i], payload) == Some(sigs[i])
  {
    if signers != [] {
      SignPayloadInOrder(scheme, signers[..|signers| - 1], payload);
    }
  }

  // ----- Assembling an entry -----

  function HexAll(hashes: seq<Bytes>): (r: seq<string>)
    ensures |r| == |hashes|
  {
    seq(|hashes|, i requires 0 <= i < |hashes| => Hex.Encode(hashes[i]))
  }

  /** The signatures after the first, with their log IDs. */
  function Additional(sigs: seq<Bytes>, logIDs: seq<string>): seq<(string, Bytes)>
    requires |sigs| == |logIDs| > 0
  {
    seq(|sigs| - 1, i requires 0 <= i < |sigs| - 1 => (logIDs[i + 1], sigs[i + 1]))
  }

  /** A leaf with its proof, and the root it was proved against. */
  datatype Proven = Proven(leaf: Trillian.Leaf, root: LogRoot, proofIndex: int, hashes: seq<Bytes>)

  function BodyOfLeaf(leaf: Trillian.Leaf): Option<string> {
    if leaf.value == [] then None else Some(Base64.Encode(leaf.value))
  }

  /** The entry as it arrives at a client: an empty primary signature is omitted from the JSON. */
  function Assemble(p: Proven, logID: string, index: int, checkpoint: string, sigs: seq<Bytes>,
                    logIDs: seq<string>): LogEntry
    requires |sigs| == |logIDs| > 0
  {
    LogEntry(
      BodyOfLeaf(p.leaf), p.leaf.integrateTime, logID, index,
      Some(Verification(
        Some(InclusionProof(Int64(p.root.size), Hex.Encode(p.root.hash), p.proofIndex, HexAll(p.hashes), checkpoint)),
        if sigs[0] == [] then None else Some(sigs[0]),
        Additional(sigs, logIDs))))
  }

  /** The note of a checkpoint for a root of a tree. */
  function NoteFor(scheme: Scheme, hostname: string, tid: int, root: LogRoot,
                   signers: seq<Signer>): Option<Notes.Note> {
    PublishedNote(scheme, hostname, tid, root.size, root.hash, signers)
  }

  /** The text of a checkpoint signed now. */
  function FreshCheckpoint(scheme: Scheme, hostname: string, tid: int, root: LogRoot,
                           signers: seq<Signer>): Option<string> {
    var n := NoteFor(scheme, hostname, tid, root, signers);
    if n.None? then None else Some(Notes.Print(n.value))
  }

  /** A server: its keys and hash, its hostname, its shards, and the checkpoints it cached. */
  datatype Server = Server(env: Env, hostname: string, ranges: Ranges, cached: map<int, string>)

  /** The payload a shard signs for a leaf. */
  function FieldsOf(s: Server, leaf: Trillian.Leaf, tid: int, range: LogRange): Fields {
    ServerFields(leaf.value, leaf.integrateTime, range.logID, VirtualLogIndex(leaf.leafIndex, tid, s.ranges))
  }

  /** The checkpoint that goes into an entry: the cached one if there is one. */
  function CheckpointText(s: Server, root: LogRoot, tid: int, signers: seq<Signer>): Option<string> {
    if tid in s.cached then Some(s.cached[tid]) else FreshCheckpoint(s.env.scheme, s.hostname, tid, root, signers)
  }

  /** The entry ID and the entry of a leaf in a shard, from a checkpoint that may be cached. */
  function EntryOf(s: Server, p: Proven, tid: int): Option<(string, LogEntry)> {
    var range := RangeOf(s.ranges, tid);
    if range.None? then None
    else
      var fields := FieldsOf(s, p.leaf, tid, range.value);
      var sigs := SignEntry(s.env, range.value.signers, range.value.logIDs, fields);
      var checkpoint := CheckpointText(s, p.root, tid, range.value.signers);
      var id := CreateEntryIDFromParts(HexTreeID(tid), Hex.Encode(p.leaf.merkleLeafHash));
      if sigs.None? || checkpoint.None? || id.Err? then None
      else
        SignEntryLengths(s.env, range.value.signers, range.value.logIDs, fields);
        var index := VirtualLogIndex(p.leaf.leafIndex, tid, s.ranges);
        Some((id.value.ReturnEntryIDString(),
              Assemble(p, range.value.logID, index, checkpoint.value, sigs.value, range.value.logIDs)))
  }

  lemma SignEntryLengths(env: Env, signers: seq<Signer>, logIDs: seq<string>, fields: Fields)
    requires SignEntry(env, signers, logIDs, fields).Some?
    ensures |SignEntry(env, signers, logIDs, fields).value| == |signers| == |logIDs| > 0
  {
    SignPayloadInOrder(env.scheme, signers, env.canonical(ObjectOf(fields)));
  }

  lemma {:induction false} SignPayloadIff(scheme: Scheme, signers: seq<Signer>, payload: string)
    ensures SignPayload(scheme, signers, payload).Some?
            <==> forall i :: 0 <= i < |signers| ==> scheme.sign(signers[i], payload).Some?
  {
    if signers != [] {
      SignPayloadIff(scheme, signers[..|signers| - 1], payload);
    }
  }

  /**
    An entry comes back if and only if its tree is a shard with a writable ID, there are as many log IDs as signers
    and at least one, all of them sign the payload and, unless one is cached, the checkpoint, and the leaf
    hash has 32 bytes.
   */
  lemma EntryOfIff(s: Server, p: Proven, tid: int)
    requires IsInt64(tid)
    ensures EntryOf(s, p, tid).Some?
            <==> && RangeOf(s.ranges, tid).Some?
                 && var range := RangeOf(s.ranges, tid).value;
                    var payload := s.env.canonical(ObjectOf(FieldsOf(s, p.leaf, tid, range)));
                    var text := Print(LogCheckpoint(s.hostname, tid, p.root.size, p.root.hash));
                    && range.signers != [] && |range.signers| == |range.logIDs|
                    && (forall i :: 0 <= i < |range.signers| ==> s.env.scheme.sign(range.signers[i], payload).Some?)
                    && (|| tid in s.cached
                        || forall i :: 0 <= i < |range.signers| ==>
                             && s.env.scheme.sign(range.signers[i], text).Some?
                             && s.env.scheme.hint(range.signers[i].key).Some?)
                    && Writable(tid) && |p.leaf.merkleLeafHash| == 32
  {
    hide ObjectOf, Print, FirstRange, VirtualFrom, Hex.Encode, SignPayload, PublishedNote, CreateEntryIDFromParts,
      Writable, Assemble, Notes.Print;
    if RangeOf(s.ranges, tid).Some? {
      var range := RangeOf(s.ranges, tid).value;
      SignPayloadIff(s.env.scheme, range.signers, s.env.canonical(ObjectOf(FieldsOf(s, p.leaf, tid, range))));
      PublishedIff(s.env.scheme, s.hostname, tid, p.root.size, p.root.hash, range.signers);
    }
    EntryIDRoundTrip(tid, Hex.Encode(p.leaf.merkleLeafHash));
    Hex.RoundTrip(p.leaf.merkleLeafHash);
  }

  method EncodeHashes(hashes: seq<Bytes>) returns (r: seq<string>)
    ensures r == HexAll(hashes)
  {
    r := [];
    for i := 0 to |hashes|
      invariant r == HexAll(hashes[..i])
    {
      assert HexAll(hashes[..i + 1]) == HexAll(hashes[..i]) + [Hex.Encode(hashes[i])];
      r := r + [Hex.Encode(hashes[i])];
    }
    assert hashes[..|hashes|] == hashes;
  }

  method AdditionalTimestamps(sigs: seq<Bytes>, logIDs: seq<string>) returns (r: seq<(string, Bytes)>)
    requires |sigs| == |logIDs| > 0
    ensures r == Additional(sigs, logIDs)
  {
    r := [];
    for i := 0 to |sigs| - 1
      invariant r == Additional(sigs, logIDs)[..i]
    {
      var logID := logIDs[i + 1];
      r := r + [(logID, sigs[i + 1])];
    }
  }

  /**
    Stored attestations: `keyOf` is None for a body that does not parse, and Some(None) for one without attestation.
   */
  datatype Attestations = Attestations(enabled: bool, keyOf: Bytes -> Option<Option<string>>,
                                       fetch: string -> Option<Bytes>)

  /** The attestation of a leaf, looked up by its own key if it has one, and else by its UUID. */
  function AttestationOf(store: Attestations, value: Bytes, uuid: string): Result<Option<Bytes>> {
    if !store.enabled then Ok(None)
    else
      match store.keyOf(value)
      case None => Err("unmarshalling entry")
      case Some(None) => Ok(None)
      case Some(Some(key)) => Ok(if key != "" && store.fetch(key).Some? then store.fetch(key) else store.fetch(uuid))
  }

  /**
    What is stored under the entry's own key wins over what is stored under its UUID, which counts only then. Without
    storage or for an entry of a type without attestations there is none, and a body that does not parse is an error.
   */
  lemma OwnKeyWins(store: Attestations, value: Bytes, uuid: string, key: string)
    ensures store.enabled && store.keyOf(value) == Some(Some(key)) && key != "" && store.fetch(key).Some? ==>
              forall other: string :: AttestationOf(store, value, other) == Ok(store.fetch(key))
    ensures store.enabled && store.keyOf(value) == Some(Some(key)) && (key == "" || store.fetch(key).None?) ==>
              AttestationOf(store, value, uuid) == Ok(store.fetch(uuid))
    ensures AttestationOf(store, value, uuid).Err? <==> store.enabled && store.keyOf(value).None?
    ensures !store.enabled || store.keyOf(value) == Some(None) ==> AttestationOf(store, value, uuid) == Ok(None)
  {
  }

  method FetchAttestation(store: Attestations, value: Bytes, uuid: string) returns (r: Result<Option<Bytes>>)
    ensures r == AttestationOf(store, value, uuid)
  {
    if !store.enabled {
      return Ok(None);
    }
    var parsed := store.keyOf(value);
    if parsed.None? {
      return Err("unmarshalling entry");
    }
    if parsed.value.None? {
      return Ok(None);
    }
    var key, att := parsed.value.value, None;
    if key != "" {
      att := store.fetch(key);
    }
    if key == "" || att.None? {
      att := store.fetch(uuid);
    }
    r := Ok(att);
  }

  /** `logEntryFromLeaf`; `root` is None when the signed root does not decode. */
  method LogEntryFromLeaf(env: Env, hostname: string, leaf: Trillian.Leaf, root: Option<LogRoot>, proof: Trillian.Proof,
                          tid: int, ranges: LogRanges, cached: map<int, string>, store: Attestations)
    returns (r: Result<(string, LogEntry, Option<Bytes>)>)
    requires IsInt64(leaf.leafIndex)
    ensures var server := Server(env, hostname, ranges.Contents(), cached);
            var e := if root.None? then None
              else EntryOf(server, Proven(leaf, root.value, proof.leafIndex, proof.hashes), tid);
            var att := AttestationOf(store, leaf.value, Hex.Encode(leaf.merkleLeafHash));
            if e.None? || att.Err? then r.Err? else r == Ok((e.value.0, e.value.1, att.value))
  {
    hide Notes.Print, PublishedNote, CreateEntryIDFromParts, Base64.Encode, Hex.Encode, HexAll, Additional, SignEntry,
      ObjectOf, VirtualFrom, FirstRange, AttestationOf;
    if root.None? {
      return Err("unmarshalling log root");
    }
    var hashes := EncodeHashes(proof.hashes);
    var index := ranges.VirtualLogIndex(leaf.leafIndex, tid);
    var range := ranges.GetLogRangeByTreeID(tid);
    if range.None? {
      return Err("no log range found for tree ID");
    }
    var fields := ServerFields(leaf.value, leaf.integrateTime, range.value.logID, index);
    var signed := SignEntryMultiple(env, range.value.signers, range.value.logIDs, fields);
    if signed.Err? {
      return Err("signing entry error");
    }
    var (sigs, sigLogIDs) := signed.value;
    SignEntryLengths(env, range.value.signers, range.value.logIDs, fields);
    var sc: string;
    if tid in cached {
      sc := cached[tid];
    } else {
      var text := CreateAndSignCheckpointMultiple(env.scheme, hostname, tid, root.value.size, root.value.hash,
                                                  range.value.signers);
      if text.Err? {
        return Err(text.error);
      }
      sc := text.value;
    }
    var uuid := Hex.Encode(leaf.merkleLeafHash);
    var id := CreateEntryIDFromParts(HexTreeID(tid), uuid);
    if id.Err? {
      return Err("error creating EntryID");
    }
    var att := FetchAttestation(store, leaf.value, uuid);
    if att.Err? {
      return Err(att.error);
    }
    var additional := AdditionalTimestamps(sigs, sigLogIDs);
    var inclusionProof :=
      InclusionProof(Int64(root.value.size), Hex.Encode(root.value.hash), proof.leafIndex, hashes, sc);
    var verification := Verification(Some(inclusionProof), if sigs[0] == [] then None else Some(sigs[0]), additional);
    var entry := LogEntry(BodyOfLeaf(leaf), leaf.integrateTime, range.value.logID, index, Some(verification));
    r := Ok((id.value.ReturnEntryIDString(), entry, att.value));
  }

  /**
    The assembly half of `createLogEntry`: the active shard, never a cached checkpoint, and the queued leaf's own
    index.
   */
  method CreateLogEntry(env: Env, hostname: string, queuedLeaf: Trillian.Leaf, root: Option<LogRoot>,
                        proofHashes: seq<Bytes>, ranges: LogRanges)
    returns (r: Result<(string, LogEntry)>)
    requires IsInt64(queuedLeaf.leafIndex)
    ensures var server := Server(env, hostname, ranges.Contents(), map[]);
            var e := if root.None? then None
                     else EntryOf(server, Proven(queuedLeaf, root.value, queuedLeaf.leafIndex, proofHashes),
                                  ranges.active.treeID);
            if e.None? then r.Err? else r == Ok(e.value)
  {
    hide Notes.Print, PublishedNote, CreateEntryIDFromParts, Base64.Encode, Hex.Encode, HexAll, Additional, SignEntry,
      ObjectOf, VirtualFrom;
    var active := ranges.active;
    var id := CreateEntryIDFromParts(HexTreeID(active.treeID), Hex.Encode(queuedLeaf.merkleLeafHash));
    if id.Err? {
      return Err("error creating EntryID from active treeID and uuid");
    }
    var index := ranges.VirtualLogIndex(queuedLeaf.leafIndex, active.treeID);
    var fields := ServerFields(queuedLeaf.value, queuedLeaf.integrateTime, active.logID, index);
    var signed := SignEntryMultiple(env, active.signers, active.logIDs, fields);
    if signed.Err? {
      return Err("signing entry error");
    }
    var (sigs, sigLogIDs) := signed.value;
    SignEntryLengths(env, active.signers, active.logIDs, fields);
    if root.None? {
      return Err("error unmarshalling log root");
    }
    var (size, hash) := (root.value.size, root.value.hash);
    var hashes := EncodeHashes(proofHashes);
    var text := CreateAndSignCheckpointMultiple(env.scheme, hostname, active.treeID, size, hash, active.signers);
    if text.Err? {
      return Err(text.error);
    }
    var additional := AdditionalTimestamps(sigs, sigLogIDs);
    var inclusionProof := InclusionProof(Int64(size), Hex.Encode(hash), queuedLeaf.leafIndex, hashes, text.value);
    var verification := Verification(Some(inclusionProof), if sigs[0] == [] then None else Some(sigs[0]), additional);
    var entry := LogEntry(BodyOfLeaf(queuedLeaf), queuedLeaf.integrateTime, active.logID, index, Some(verification));
    r := Ok((id.value.ReturnEntryIDString(), entry));
  }

  /** Every additional timestamp carries the log ID of the signer that made it, and that signer's key accepts it. */
  lemma AdditionalTimestampsPaired(env: Env, printer: KeyPrinter, range: LogRange, fields: Fields, i: nat)
    requires env.Lawful() && Aligned(printer, range)
    requires SignEntry(env, range.signers, range.logIDs, fields).Some?
    requires |SignEntry(env, range.signers, range.logIDs, fields).value| == |range.logIDs|
    requires i < |range.signers| - 1
    ensures var sigs := SignEntry(env, range.signers, range.logIDs, fields).value;
            var (logID, sig) := Additional(sigs, range.logIDs)[i];
            && |Additional(sigs, range.logIDs)| == |range.signers| - 1
            && printer.id(range.signers[i + 1].key) == Some(logID)
            && env.scheme.verify(range.signers[i + 1].key, sig, env.canonical(ObjectOf(fields)))
  {
    SignPayloadInOrder(env.scheme, range.signers, env.canonical(ObjectOf(fields)));
  }

  // ----- The checkpoint cache -----

  /** The cached texts of the inactive shards, or None when a root is missing or a signature fails. */
  function CacheOf(scheme: Scheme, hostname: string, inactive: seq<LogRange>,
                   roots: map<int, LogRoot>): Option<map<int, string>> {
    if inactive == [] then Some(map[])
    else
      var n := |inactive| - 1;
      var (before, r) := (CacheOf(scheme, hostname, inactive[..n], roots), inactive[n]);
      if before.None? || r.treeID !in roots then None
      else
        var text := FreshCheckpoint(scheme, hostname, r.treeID, LogRoot(Uint64(r.treeLength), roots[r.treeID].hash),
                                    r.signers);
        if text.None? then None else Some(before.value[r.treeID := text.value])
  }

  /** The cache construction of `NewAPI`. */
  method BuildCache(scheme: Scheme, hostname: string, inactive: seq<LogRange>, roots: map<int, LogRoot>)
    returns (r: Option<map<int, string>>)
    ensures r == CacheOf(scheme, hostname, inactive, roots)
  {
    hide FreshCheckpoint, PublishedNote, Notes.Print;
    var cached: map<int, string> := map[];
    for i := 0 to |inactive|
      invariant CacheOf(scheme, hostname, inactive[..i], roots) == Some(cached)
    {
      assert inactive[..i + 1][..i] == inactive[..i];
      var range := inactive[i];
      if range.treeID !in roots {
        CacheFails(scheme, hostname, inactive, roots, i + 1);
        return None;
      }
      var text := CreateAndSignCheckpointMultiple(scheme, hostname, range.treeID, Uint64(range.treeLength),
                                                  roots[range.treeID].hash, range.signers);
      FreshCheckpointIs(scheme, hostname, range.treeID, LogRoot(Uint64(range.treeLength), roots[range.treeID].hash),
                        range.signers);
      if text.Err? {
        CacheFails(scheme, hostname, inactive, roots, i + 1);
        return None;
      }
      cached := cached[range.treeID := text.value];
    }
    assert inactive[..|inactive|] == inactive;
    r := Some(cached);
  }

  lemma FreshCheckpointIs(scheme: Scheme, hostname: string, tid: int, root: LogRoot, signers: seq<Signer>)
    ensures FreshCheckpoint(scheme, hostname, tid, root, signers)
            == match PublishedNote(scheme, hostname, tid, root.size, root.hash, signers)
               case None => None
               case Some(n) => Some(Notes.Print(n))
  {
  }

  lemma {:induction false} CacheFails(scheme: Scheme, hostname: string, inactive: seq<LogRange>,
                                      roots: map<int, LogRoot>, i: nat)
    requires i <= |inactive| && CacheOf(scheme, hostname, inactive[..i], roots).None?
    ensures CacheOf(scheme, hostname, inactive, roots).None?
    decreases |inactive| - i
  {
    if i == |inactive| {
      assert inactive[..i] == inactive;
    } else {
      assert inactive[..i + 1][..i] == inactive[..i];
      CacheFails(scheme, hostname, inactive, roots, i + 1);
    }
  }

  /** A shard is cached under its own tree ID with the text of a checkpoint over its own length and root. */
  lemma {:induction false} CachedText(scheme: Scheme, hostname: string, inactive: seq<LogRange>,
                                      roots: map<int, LogRoot>, activeID: int, i: nat)
    requires DistinctTrees(inactive, activeID) && i < |inactive|
    requires CacheOf(scheme, hostname, inactive, roots).Some?
    ensures var (r, cache) := (inactive[i], CacheOf(scheme, hostname, inactive, roots).value);
            && r.treeID in cache && r.treeID in roots
            && Some(cache[r.treeID])
               == FreshCheckpoint(scheme, hostname, r.treeID, LogRoot(Uint64(r.treeLength), roots[r.treeID].hash),
                                  r.signers)
    decreases |inactive|
  {
    hide FreshCheckpoint;
    var n := |inactive| - 1;
    if i < n {
      assert DistinctTrees(inactive[..n], activeID);
      CachedText(scheme, hostname, inactive[..n], roots, activeID, i);
      assert inactive[i].treeID != inactive[n].treeID;
    }
  }

  /** The cache is built exactly when every shard has a root and signers that all sign, and it holds nothing else. */
  lemma {:induction false} CacheIff(scheme: Scheme, hostname: string, inactive: seq<LogRange>, roots: map<int, LogRoot>)
    ensures CacheOf(scheme, hostname, inactive, roots).Some?
            <==> forall i :: 0 <= i < |inactive| ==> CanBeCached(scheme, hostname, inactive[i], roots)
    ensures CacheOf(scheme, hostname, inactive, roots).Some? ==>
              forall tid :: tid in CacheOf(scheme, hostname, inactive, roots).value
                <==> exists i :: 0 <= i < |inactive| && inactive[i].treeID == tid
  {
    hide FreshCheckpoint, CanBeCached;
    if inactive != [] {
      var n := |inactive| - 1;
      var (r, before) := (inactive[n], inactive[..n]);
      CacheIff(scheme, hostname, before, roots);
      CanBeCachedIff(scheme, hostname, r, roots);
      assert forall i :: 0 <= i < n ==> before[i] == inactive[i];
    }
  }

  lemma CanBeCachedIff(scheme: Scheme, hostname: string, r: LogRange, roots: map<int, LogRoot>)
    ensures CanBeCached(scheme, hostname, r, roots)
            <==> && r.treeID in roots
                 && var root := LogRoot(Uint64(r.treeLength), roots[r.treeID].hash);
                    FreshCheckpoint(scheme, hostname, r.treeID, root, r.signers).Some?
  {
    hide PublishedNote, Print, Notes.Print;
    if r.treeID in roots {
      PublishedIff(scheme, hostname, r.treeID, Uint64(r.treeLength), roots[r.treeID].hash, r.signers);
    }
  }

  /** The shard has a root, and signers that all sign its checkpoint and have readable keys. */
  predicate CanBeCached(scheme: Scheme, hostname: string, r: LogRange, roots: map<int, LogRoot>) {
    && r.treeID in roots && r.signers != []
    && var text := Print(LogCheckpoint(hostname, r.treeID, Uint64(r.treeLength), roots[r.treeID].hash));
       forall j :: 0 <= j < |r.signers| ==>
         scheme.sign(r.signers[j], text).Some? && scheme.hint(r.signers[j].key).Some?
  }

  /** The cache never holds the active tree. */
  lemma {:induction false} ActiveIsNotCached(scheme: Scheme, hostname: string, inactive: seq<LogRange>,
                                             roots: map<int, LogRoot>, activeID: int)
    requires DistinctTrees(inactive, activeID) && CacheOf(scheme, hostname, inactive, roots).Some?
    ensures activeID !in CacheOf(scheme, hostname, inactive, roots).value
  {
    hide FreshCheckpoint;
    if inactive != [] {
      var n := |inactive| - 1;
      assert DistinctTrees(inactive[..n], activeID);
      ActiveIsNotCached(scheme, hostname, inactive[..n], roots, activeID);
    }
  }

  /** Two checkpoints of one hostname have one text exactly when they are of one tree, size and root. */
  lemma TextBindsTree(hostname: string, tid: int, a: LogRoot, tid': int, b: LogRoot)
    requires LineFree(hostname) && hostname != ""
    ensures Print(LogCheckpoint(hostname, tid, a.size, a.hash)) == Print(LogCheckpoint(hostname, tid', b.size, b.hash))
            <==> tid == tid' && a == b
  {
    var (c, d) := (LogCheckpoint(hostname, tid, a.size, a.hash), LogCheckpoint(hostname, tid', b.size, b.hash));
    hide Print, Parse, Numerals.FormatInt;
    FormatIntIsLine(tid);
    FormatIntIsLine(tid');
    ParsePrint(c);
    ParsePrint(d);
    if c == d {
      assert c.origin[|hostname| + 3..] == Numerals.FormatInt(tid, 10);
      assert d.origin[|hostname| + 3..] == Numerals.FormatInt(tid', 10);
      Numerals.FormatIntInjective(tid, tid', 10);
    }
  }

  /** Two checkpoints of one tree have one text exactly when they commit to one size and root. */
  lemma TextBindsRoot(hostname: string, tid: int, a: LogRoot, b: LogRoot)
    requires LineFree(hostname) && hostname != ""
    ensures Print(LogCheckpoint(hostname, tid, a.size, a.hash)) == Print(LogCheckpoint(hostname, tid, b.size, b.hash))
            <==> a == b
  {
    hide Print;
    TextBindsTree(hostname, tid, a, tid, b);
  }

  /** What the server caches at start-up, from the roots it reads then. */
  function StartupCache(scheme: Scheme, hostname: string, inactive: seq<LogRange>,
                        latest: int -> Option<LogRoot>): Option<map<int, string>> {
    CacheOf(scheme, hostname, WithLengths(inactive, latest, |inactive|), RootsOf(inactive, latest, |inactive|))
  }

  lemma LengthsKeepTrees(inactive: seq<LogRange>, latest: int -> Option<LogRoot>, activeID: int, i: nat)
    requires DistinctTrees(inactive, activeID) && i < |inactive|
    ensures var l := WithLengths(inactive, latest, |inactive|);
            && DistinctTrees(l, activeID)
            && l[i].treeID == inactive[i].treeID && l[i].signers == inactive[i].signers
  {
    var l := WithLengths(inactive, latest, |inactive|);
    assert forall j :: 0 <= j < |l| ==> l[j].treeID == inactive[j].treeID;
  }

  /** Under its tree ID an inactive shard has the text of a checkpoint over the root read at start-up. */
  lemma StartupText(scheme: Scheme, hostname: string, inactive: seq<LogRange>, latest: int -> Option<LogRoot>,
                    activeID: int, i: nat)
    requires DistinctTrees(inactive, activeID) && Readable(inactive, latest) == |inactive| && i < |inactive|
    requires StartupCache(scheme, hostname, inactive, latest).Some?
    ensures var (tid, read) := (inactive[i].treeID, latest(inactive[i].treeID).value);
            var cache := StartupCache(scheme, hostname, inactive, latest).value;
            tid in cache && Some(cache[tid]) == FreshCheckpoint(scheme, hostname, tid, read, inactive[i].signers)
  {
    hide FreshCheckpoint, CacheOf, RootsOf, WithLengths, DistinctTrees;
    var read := latest(inactive[i].treeID).value;
    var (l, roots) := (WithLengths(inactive, latest, |inactive|), RootsOf(inactive, latest, |inactive|));
    RootsMatchLengths(inactive, latest, |inactive|, i);
    CastsAreInverse(read.size);
    LengthsKeepTrees(inactive, latest, activeID, i);
    CachedText(scheme, hostname, l, roots, activeID, i);
  }

  /**
    After initialisation, the cached note of an inactive shard has the text of a checkpoint signed
    now at root `now` exactly when the shard has not changed since it was read.
   */
  lemma CacheAgreesIffFrozen(scheme: Scheme, hostname: string, inactive: seq<LogRange>, latest: int -> Option<LogRoot>,
                             activeID: int, i: nat, now: LogRoot, signersNow: seq<Signer>)
    requires LineFree(hostname) && hostname != ""
    requires DistinctTrees(inactive, activeID) && Readable(inactive, latest) == |inactive| && i < |inactive|
    requires StartupCache(scheme, hostname, inactive, latest).Some?
    requires NoteFor(scheme, hostname, inactive[i].treeID, now, signersNow).Some?
    ensures var (tid, read) := (inactive[i].treeID, latest(inactive[i].treeID).value);
            var cache := StartupCache(scheme, hostname, inactive, latest).value;
            var cachedNote := NoteFor(scheme, hostname, tid, read, inactive[i].signers);
            && tid in cache && cachedNote.Some? && cache[tid] == Notes.Print(cachedNote.value)
            && (cachedNote.value.text == NoteFor(scheme, hostname, tid, now, signersNow).value.text <==> read == now)
  {
    hide Print, Notes.Print, SignAll, StartupCache;
    StartupText(scheme, hostname, inactive, latest, activeID, i);
    TextBindsRoot(hostname, inactive[i].treeID, latest(inactive[i].treeID).value, now);
  }
}
