/** What an honest server assembles, the client accepts. */
module EndToEnd {
  import opened Basics
  import opened Checkpoints
  import opened Entries
  import opened EntryIDs
  import opened Merkle
  import opened Sharding
  import opened Signing
  import opened Text
  import opened Verify
  import Base64
  import Hex
  import Inclusion
  import Notes = SignedNotes
  import Trillian = TrillianClients

  /** The leaf and proof of entry `m` of a log, and the log's root. */
  predicate Honest(sha: Sha, log: seq<Bytes>, m: nat, p: Proven) {
    && m < |log| < TWO_63
    && p.leaf.value == log[m] && p.leaf.leafIndex == m && p.leaf.merkleLeafHash == HashLeaf(sha, log[m])
    && p.root == LogRoot(|log|, TreeHash(sha, log))
    && p.proofIndex == m && p.hashes == AuditPath(sha, m, log)
  }

  lemma {:induction false} DecodeHexAll(hashes: seq<Bytes>)
    ensures DecodeAll(HexAll(hashes)) == Some(hashes)
  {
    if hashes != [] {
      var n := |hashes| - 1;
      DecodeHexAll(hashes[..n]);
      Hex.RoundTrip(hashes[n]);
      assert HexAll(hashes)[..n] == HexAll(hashes[..n]);
      assert hashes == hashes[..n] + [hashes[n]];
    }
  }

  lemma InclusionOfAssembled(env: Env, log: seq<Bytes>, m: nat, p: Proven, logID: string, index: int,
                             checkpoint: string, sigs: seq<Bytes>, logIDs: seq<string>)
    requires Honest(env.sha, log, m, p) && |sigs| == |logIDs| > 0
    ensures InclusionHolds(env, Assemble(p, logID, index, checkpoint, sigs, logIDs)) <==> log[m] != []
  {
    hide TreeHash, AuditPath, DecodeAll, HexAll, Hex.Decode, Hex.Encode, Base64.Decode, Base64.Encode,
      Inclusion.Accepts, Additional;
    DecodeHexAll(p.hashes);
    Hex.RoundTrip(p.root.hash);
    Base64.RoundTrip(p.leaf.value);
    CastsAreInverse(p.root.size);
    Inclusion.Completeness(env.sha, m, log);
    assert Uint64(p.proofIndex) == m;
  }

  /** The client's four members, marshalled in another order, are the object the server signed. */
  lemma SamePayload(leaf: Trillian.Leaf, e: LogEntry)
    requires e.body == BodyOfLeaf(leaf) && e.integratedTime == leaf.integrateTime
    ensures ObjectOf(ClientFields(e)) == ObjectOf(ServerFields(leaf.value, leaf.integrateTime, e.logID, e.logIndex))
  {
    hide Base64.Encode;
    var (c, s) := (ClientFields(e), ServerFields(leaf.value, leaf.integrateTime, e.logID, e.logIndex));
    FourFields(c);
    FourFields(s);
  }

  /** A published checkpoint is accepted by the key of its first signer when the roots match. */
  lemma CheckpointOfPublished(env: Env, p: InclusionProof, hostname: string, tid: int, size: U64, hash: Bytes,
                              signers: seq<Signer>, root: Bytes)
    requires env.Lawful() && PublishedNote(env.scheme, hostname, tid, size, hash, signers).Some?
    requires var n := PublishedNote(env.scheme, hostname, tid, size, hash, signers).value;
             Publishable(hostname, n) && p.checkpoint == Notes.Print(n)
    requires p.rootHash == Hex.Encode(root)
    ensures CheckpointHolds(env, p, signers[0].key) <==> env.equalFold(root, hash)
  {
    hide Notes.Print, ParseSigned, SignAll, Print, Publishable, Notes.Verifies, Hex.Decode, Hex.Encode;
    PublishedRoundTrip(env.scheme, hostname, tid, size, hash, signers);
    PublishedVerifies(env.scheme, hostname, tid, size, hash, signers, 0);
    Hex.RoundTrip(root);
  }

  /** The hostname is a word and no signature line reaches 64 KiB. */
  predicate Prints(hostname: string, n: Notes.Note) {
    IsWord(hostname) && forall i :: 0 <= i < |n.signatures| ==>
      ByteLength(Notes.SignatureLine(n.signatures[i])) < LINE_LIMIT
  }

  lemma NonEmptyIsPublishable(env: Env, hostname: string, tid: int, size: U64, hash: Bytes, signers: seq<Signer>)
    requires env.scheme.NonEmpty() && PublishedNote(env.scheme, hostname, tid, size, hash, signers).Some?
    requires Prints(hostname, PublishedNote(env.scheme, hostname, tid, size, hash, signers).value)
    ensures Publishable(hostname, PublishedNote(env.scheme, hostname, tid, size, hash, signers).value)
  {
    hide Print, SignAll, Notes.SignatureLine, Base64.Encode, Base64.Decode, Notes.SignOne, ByteLength, IsWord;
    var n := PublishedNote(env.scheme, hostname, tid, size, hash, signers).value;
    SignAllInOrder(env.scheme, n.text, hostname, signers);
    forall i | 0 <= i < |n.signatures|
      ensures n.signatures[i].base64 != ""
    {
      SignedIsCanonical(env.scheme, n.text, hostname, signers[i]);
      assert env.scheme.sign(signers[i], n.text) != Some([]);
    }
  }

  /** A checkpoint published for root `cp`, now or when the cache was built, by the primary key of the shard. */
  ghost predicate CheckpointFor(s: Server, tid: int, cp: LogRoot, signers: seq<Signer>, range: LogRange, text: string) {
    && signers != [] && range.signers != [] && signers[0].key == range.signers[0].key
    && NoteFor(s.env.scheme, s.hostname, tid, cp, signers).Some?
    && var n := NoteFor(s.env.scheme, s.hostname, tid, cp, signers).value;
       Prints(s.hostname, n) && text == Notes.Print(n)
  }

  /** The text is the one that goes into an entry. */
  ghost predicate EntryCheckpointFor(s: Server, root: LogRoot, tid: int, cp: LogRoot, signers: seq<Signer>) {
    && RangeOf(s.ranges, tid).Some?
    && var range := RangeOf(s.ranges, tid).value;
       var text := CheckpointText(s, root, tid, range.signers);
       text.Some? && CheckpointFor(s, tid, cp, signers, range, text.value)
  }

  /** The primary key of a shard, under which its entries are checked. */
  function PrimaryKey(s: Server, tid: int): Option<Key> {
    var range := RangeOf(s.ranges, tid);
    if range.None? || range.value.signers == [] then None else Some(range.value.signers[0].key)
  }

  /**
    End to end: for every honest log, shard layout and signer list, the entry assembled for leaf `m`
    is accepted under the shard's primary key exactly when the leaf is not empty and the checkpoint
    in the entry commits to the proof's root; its ID leads back to the tree and the leaf hash.
   */
  lemma AssembledIsAcceptedIff(s: Server, log: seq<Bytes>, m: nat, p: Proven, tid: int, cp: LogRoot,
                               cpSigners: seq<Signer>)
    requires s.env.Lawful() && IsInt64(tid)
    requires Honest(s.env.sha, log, m, p) && EntryOf(s, p, tid).Some?
             && EntryCheckpointFor(s, p.root, tid, cp, cpSigners)
    ensures var (id, e) := EntryOf(s, p, tid).value;
            && PrimaryKey(s, tid).Some?
            && (Accepted(s.env, e, PrimaryKey(s, tid).value) <==> log[m] != [] && s.env.equalFold(p.root.hash, cp.hash))
            && TreeID(id) == Ok(tid)
            && GetUUIDFromIDString(id) == Ok(Hex.Encode(HashLeaf(s.env.sha, log[m])))
            && e.body == BodyOfLeaf(p.leaf) && e.logIndex == VirtualLogIndex(m, tid, s.ranges)
  {
    hide TreeHash, AuditPath, Inclusion.Accepts, HexAll, Hex.Encode, Base64.Encode, Additional, Notes.Print,
      CheckpointText, PublishedNote, InclusionHolds, CheckpointHolds, ObjectOf, Prints, VirtualFrom, FirstRange,
      CreateEntryIDFromParts, SignPayload, TreeID, GetUUIDFromIDString;
    var (id, e) := EntryOf(s, p, tid).value;
    var range := RangeOf(s.ranges, tid).value;
    var payload := s.env.canonical(ObjectOf(FieldsOf(s, p.leaf, tid, range)));
    SignPayloadInOrder(s.env.scheme, range.signers, payload);
    var sigs := SignPayload(s.env.scheme, range.signers, payload).value;
    var proof := e.verification.value.inclusionProof.value;
    InclusionOfAssembled(s.env, log, m, p, range.logID, e.logIndex, proof.checkpoint, sigs, range.logIDs);
    NonEmptyIsPublishable(s.env, s.hostname, tid, cp.size, cp.hash, cpSigners);
    CheckpointOfPublished(s.env, proof, s.hostname, tid, cp.size, cp.hash, cpSigners, p.root.hash);
    SamePayload(p.leaf, e);
    assert TimestampHolds(s.env, e, range.signers[0].key);
    EntryIDRoundTrip(tid, Hex.Encode(p.leaf.merkleLeafHash));
  }

  /** A checkpoint signed now is one for the proof's root. */
  lemma FreshCheckpointIsFor(s: Server, p: Proven, tid: int)
    requires tid !in s.cached && EntryOf(s, p, tid).Some? && RangeOf(s.ranges, tid).Some?
    requires var n := NoteFor(s.env.scheme, s.hostname, tid, p.root, RangeOf(s.ranges, tid).value.signers);
             n.Some? ==> Prints(s.hostname, n.value)
    ensures EntryCheckpointFor(s, p.root, tid, p.root, RangeOf(s.ranges, tid).value.signers)
  {
    hide Notes.Print, PublishedNote, Prints, CreateEntryIDFromParts, SignPayload, FirstRange, Hex.Encode, VirtualFrom,
      ObjectOf, Assemble;
  }

  /** An entry with a checkpoint signed now is accepted exactly when the leaf is not empty. */
  lemma FreshEntryIsAccepted(s: Server, log: seq<Bytes>, m: nat, p: Proven, tid: int)
    requires s.env.Lawful() && IsInt64(tid) && tid !in s.cached
    requires Honest(s.env.sha, log, m, p) && EntryOf(s, p, tid).Some? && RangeOf(s.ranges, tid).Some?
    requires var n := NoteFor(s.env.scheme, s.hostname, tid, p.root, RangeOf(s.ranges, tid).value.signers);
             n.Some? ==> Prints(s.hostname, n.value)
    ensures PrimaryKey(s, tid).Some?
    ensures Accepted(s.env, EntryOf(s, p, tid).value.1, PrimaryKey(s, tid).value) <==> log[m] != []
  {
    hide Honest, EntryOf, Accepted, RangeOf, NoteFor, Prints, EntryCheckpointFor, TreeID, GetUUIDFromIDString,
      Hex.Encode, PrimaryKey;
    FreshCheckpointIsFor(s, p, tid);
    AssembledIsAcceptedIff(s, log, m, p, tid, p.root, RangeOf(s.ranges, tid).value.signers);
  }

  lemma EntryHasSigners(s: Server, p: Proven, tid: int)
    requires EntryOf(s, p, tid).Some?
    ensures RangeOf(s.ranges, tid).Some? && RangeOf(s.ranges, tid).value.signers != []
  {
    hide RangeOf, CheckpointText, CreateEntryIDFromParts, Assemble, Hex.Encode;
  }

  /** A server after start-up: lengths and cached checkpoints come from the roots it read. */
  predicate StartedUp(s: Server, inactive: seq<LogRange>, latest: int -> Option<LogRoot>) {
    && DistinctTrees(inactive, s.ranges.active.treeID) && Readable(inactive, latest) == |inactive|
    && s.ranges.inactive == WithLengths(inactive, latest, |inactive|)
    && StartupCache(s.env.scheme, s.hostname, inactive, latest) == Some(s.cached)
  }

  /** A cached checkpoint is one for the root read at start-up. */
  lemma CachedCheckpointIsFor(s: Server, inactive: seq<LogRange>, latest: int -> Option<LogRoot>, i: nat, root: LogRoot)
    requires StartedUp(s, inactive, latest) && i < |inactive| && inactive[i].signers != []
    requires var n := NoteFor(s.env.scheme, s.hostname, inactive[i].treeID, latest(inactive[i].treeID).value,
                              inactive[i].signers);
             n.Some? ==> Prints(s.hostname, n.value)
    ensures EntryCheckpointFor(s, root, inactive[i].treeID, latest(inactive[i].treeID).value, inactive[i].signers)
  {
    hide Notes.Print, PublishedNote, Prints, StartupCache, FirstRange;
    StartupText(s.env.scheme, s.hostname, inactive, latest, s.ranges.active.treeID, i);
    RangeOfInactive(s.ranges, i);
  }

  /**
    An entry of an inactive shard served from the cache is accepted exactly when the leaf is not empty and
    the root read at start-up still matches: always, for a shard that stayed frozen.
   */
  lemma CachedEntryIsAccepted(s: Server, log: seq<Bytes>, m: nat, p: Proven, inactive: seq<LogRange>,
                              latest: int -> Option<LogRoot>, i: nat)
    requires s.env.Lawful() && StartedUp(s, inactive, latest) && i < |inactive| && IsInt64(inactive[i].treeID)
    requires Honest(s.env.sha, log, m, p) && EntryOf(s, p, inactive[i].treeID).Some?
    requires var n := NoteFor(s.env.scheme, s.hostname, inactive[i].treeID, latest(inactive[i].treeID).value,
                              inactive[i].signers);
             n.Some? ==> Prints(s.hostname, n.value)
    ensures var tid := inactive[i].treeID;
            && inactive[i].signers != [] && PrimaryKey(s, tid) == Some(inactive[i].signers[0].key)
            && (Accepted(s.env, EntryOf(s, p, tid).value.1, PrimaryKey(s, tid).value)
                <==> log[m] != [] && s.env.equalFold(p.root.hash, latest(tid).value.hash))
  {
    hide Honest, EntryOf, Accepted, NoteFor, Prints, EntryCheckpointFor, TreeID, GetUUIDFromIDString, Hex.Encode,
      FirstRange, StartupCache, CheckpointText;
    RangeOfInactive(s.ranges, i);
    EntryHasSigners(s, p, inactive[i].treeID);
    CachedCheckpointIsFor(s, inactive, latest, i, p.root);
    AssembledIsAcceptedIff(s, log, m, p, inactive[i].treeID, latest(inactive[i].treeID).value, inactive[i].signers);
  }

  lemma RangeOfInactive(r: Ranges, i: nat)
    requires DistinctTrees(r.inactive, r.active.treeID) && i < |r.inactive|
    ensures RangeOf(r, r.inactive[i].treeID) == Some(r.inactive[i])
  {
    FirstRangeAt(r.inactive, i);
  }

  lemma {:induction false} FirstRangeAt(l: seq<LogRange>, i: nat)
    requires i < |l| && forall j, k :: 0 <= j < k < |l| ==> l[j].treeID != l[k].treeID
    ensures FirstRange(l, l[i].treeID) == Some(l[i])
  {
    if i > 0 {
      assert l[0].treeID != l[i].treeID;
      FirstRangeAt(l[1..], i - 1);
    }
  }

  /** Looking up a virtual index and assembling the leaf found there gives an entry with that very index. */
  lemma EntryByIndexKeepsItsIndex(s: Server, p: Proven, index: int)
    requires Sane(s.ranges) && 0 <= index < TWO_63
    requires p.leaf.leafIndex == ResolveVirtualIndex(s.ranges, index).1
    requires EntryOf(s, p, ResolveVirtualIndex(s.ranges, index).0).Some?
    ensures EntryOf(s, p, ResolveVirtualIndex(s.ranges, index).0).value.1.logIndex == index
  {
    hide CheckpointText, SignEntry, CreateEntryIDFromParts, HexAll, Additional, Resolve, VirtualFrom;
    IndexesAreBijective(s.ranges, index);
  }

  // ----- What an assembled entry carries -----

  /** The four members as an object, spelled out. */
  function PayloadOf(body: Option<string>, time: int, logID: string, index: int): map<string, Json> {
    map["body" := if body.Some? then JString(body.value) else JNull,
        "integratedTime" := JNumber(time), "logID" := JString(logID), "logIndex" := JNumber(index)]
  }

  lemma PayloadIs(s: Server, leaf: Trillian.Leaf, tid: int, range: LogRange)
    ensures ObjectOf(FieldsOf(s, leaf, tid, range))
            == PayloadOf(BodyOfLeaf(leaf), leaf.integrateTime, range.logID,
                         VirtualLogIndex(leaf.leafIndex, tid, s.ranges))
  {
    hide Base64.Encode, VirtualFrom;
    FourFields(FieldsOf(s, leaf, tid, range));
  }

  /**
    The entry of a leaf carries the leaf's own body and time, its shard's log ID and its virtual index, the proof and
    root it was given, and one timestamp of each signer over those very four members: the first as its own,
    number `i` of the others under the log ID of the key that verifies it.
   */
  lemma EntryCarries(s: Server, p: Proven, tid: int, printer: KeyPrinter)
    requires s.env.Lawful() && EntryOf(s, p, tid).Some? && RangeOf(s.ranges, tid).Some?
    requires Aligned(printer, RangeOf(s.ranges, tid).value)
    ensures var (e, range) := (EntryOf(s, p, tid).value.1, RangeOf(s.ranges, tid).value);
            && e.body == BodyOfLeaf(p.leaf) && e.integratedTime == p.leaf.integrateTime && e.logID == range.logID
            && e.logIndex == VirtualLogIndex(p.leaf.leafIndex, tid, s.ranges)
            && e.verification.Some? && e.verification.value.inclusionProof.Some?
            && var (v, proof) := (e.verification.value, e.verification.value.inclusionProof.value);
               && Uint64(proof.treeSize) == p.root.size && proof.rootHash == Hex.Encode(p.root.hash)
               && proof.logIndex == p.proofIndex && DecodeAll(proof.hashes) == Some(p.hashes)
               && Some(proof.checkpoint) == CheckpointText(s, p.root, tid, range.signers)
               && |v.additionalTimestamps| == |range.signers| - 1 && v.signedEntryTimestamp.Some?
               && var payload := s.env.canonical(PayloadOf(e.body, e.integratedTime, e.logID, e.logIndex));
                  && s.env.scheme.verify(range.signers[0].key, v.signedEntryTimestamp.value, payload)
                  && forall i :: 0 <= i < |v.additionalTimestamps| ==>
                       var (logID, sig) := v.additionalTimestamps[i];
                       && printer.id(range.signers[i + 1].key) == Some(logID)
                       && s.env.scheme.verify(range.signers[i + 1].key, sig, payload)
  {
    hide Hex.Encode, Base64.Encode, DecodeAll, HexAll, CheckpointText, CreateEntryIDFromParts, ObjectOf, VirtualFrom,
      FirstRange, SignPayload, PayloadOf;
    var range := RangeOf(s.ranges, tid).value;
    var payload := s.env.canonical(ObjectOf(FieldsOf(s, p.leaf, tid, range)));
    PayloadIs(s, p.leaf, tid, range);
    SignPayloadInOrder(s.env.scheme, range.signers, payload);
    DecodeHexAll(p.hashes);
    CastsAreInverse(p.root.size);
  }

  /** Of all payloads, the key accepts signatures only over those of the given leaves of the server's shards. */
  ghost predicate SignsOnly(s: Server, key: Key, leaves: set<(Trillian.Leaf, int)>) {
    forall payload: map<string, Json>, sig: Bytes :: s.env.scheme.verify(key, sig, s.env.canonical(payload)) ==>
      exists l :: l in leaves && IsPayloadOf(s, payload, l)
  }

  predicate IsPayloadOf(s: Server, payload: map<string, Json>, l: (Trillian.Leaf, int)) {
    && RangeOf(s.ranges, l.1).Some?
    && s.env.canonical(payload) == s.env.canonical(ObjectOf(FieldsOf(s, l.0, l.1, RangeOf(s.ranges, l.1).value)))
  }

  ghost predicate Injective(env: Env) {
    forall a: map<string, Json>, b: map<string, Json> :: env.canonical(a) == env.canonical(b) ==> a == b
  }

  /** An empty primary signature is left out of the entry, which no key then accepts. */
  lemma EmptySignatureIsRefused(s: Server, p: Proven, tid: int, key: Key)
    requires EntryOf(s, p, tid).Some? && RangeOf(s.ranges, tid).Some?
    ensures RangeOf(s.ranges, tid).value.signers != []
    ensures var (e, range) := (EntryOf(s, p, tid).value.1, RangeOf(s.ranges, tid).value);
            var payload := s.env.canonical(ObjectOf(FieldsOf(s, p.leaf, tid, range)));
            && e.verification.Some?
            && (e.verification.value.signedEntryTimestamp.None?
                <==> s.env.scheme.sign(range.signers[0], payload) == Some([]))
            && (s.env.scheme.sign(range.signers[0], payload) == Some([]) ==> !Accepted(s.env, e, key))
  {
    hide Hex.Encode, BodyOfLeaf, HexAll, CheckpointText, CreateEntryIDFromParts, ObjectOf, VirtualFrom, FirstRange,
      SignPayload, InclusionHolds, CheckpointHolds;
    var range := RangeOf(s.ranges, tid).value;
    SignPayloadInOrder(s.env.scheme, range.signers, s.env.canonical(ObjectOf(FieldsOf(s, p.leaf, tid, range))));
  }

  /**
    With an unforged key and a canonical form that loses nothing, an accepted entry has the four members of a leaf
    the server assembled.
   */
  lemma AcceptedIsTheServers(s: Server, e: LogEntry, key: Key, leaves: set<(Trillian.Leaf, int)>)
    requires Accepted(s.env, e, key) && SignsOnly(s, key, leaves) && Injective(s.env)
    ensures exists l :: && l in leaves && RangeOf(s.ranges, l.1).Some?
                        && e.body == BodyOfLeaf(l.0) && e.integratedTime == l.0.integrateTime
                        && e.logID == RangeOf(s.ranges, l.1).value.logID
                        && e.logIndex == VirtualLogIndex(l.0.leafIndex, l.1, s.ranges)
  {
    hide Accepted, VirtualFrom, FirstRange, BodyOfLeaf, ObjectOf;
    AcceptedTimestampVerifies(s.env, e, key);
    var payload := PayloadOf(e.body, e.integratedTime, e.logID, e.logIndex);
    assert payload == map[
      "body" := if e.body.Some? then JString(e.body.value) else JNull,
      "integratedTime" := JNumber(e.integratedTime),
      "logIndex" := JNumber(e.logIndex),
      "logID" := JString(e.logID)];
    assert s.env.scheme.verify(key, e.verification.value.signedEntryTimestamp.value, s.env.canonical(payload));
    var l :| l in leaves && IsPayloadOf(s, payload, l);
    var (leaf, range) := (l.0, RangeOf(s.ranges, l.1).value);
    PayloadIs(s, leaf, l.1, range);
    var signed := PayloadOf(BodyOfLeaf(leaf), leaf.integrateTime, range.logID,
                            VirtualLogIndex(leaf.leafIndex, l.1, s.ranges));
    assert payload == signed;
    assert payload["body"] == signed["body"] && payload["integratedTime"] == signed["integratedTime"];
    assert payload["logID"] == signed["logID"] && payload["logIndex"] == signed["logIndex"];
  }
}
