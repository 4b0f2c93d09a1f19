/** `rekor-cli verify` (cmd/rekor-cli/app/verify.go): the order of its checks and the chain it prints. */
module VerifyCommand {
  import opened Basics
  import opened Entries
  import opened EntryIDs
  import opened Merkle
  import opened Numerals
  import opened Signing
  import opened Verify
  import Base64
  import Bits
  import EndToEnd
  import Hex
  import Inclusion
  import Sharding

  datatype Output = Output(rootHash: string, entryUUID: string, index: int, size: int, hashes: seq<string>,
                           checkpoint: string)

  // ----- The printed chain -----

  /** The entry hash in the ID, or nothing when the ID is malformed. */
  function LeafHash(o: Output): string {
    var uuid := GetUUIDFromIDString(o.entryUUID);
    if uuid.Ok? then uuid.value else ""
  }

  /** Decoding errors are ignored, keeping what was decoded before them. */
  function Prefixes(hashes: seq<string>): (r: seq<Bytes>)
    ensures |r| == |hashes|
  {
    seq(|hashes|, i requires 0 <= i < |hashes| => Hex.DecodePrefix(hashes[i]))
  }

  function InnerOf(o: Output): nat { Inclusion.ChainInner(Uint64(o.index), Uint64(o.size)) }

  function ComputedRoot(sha: Sha, o: Output): Bytes {
    Inclusion.Chain(sha, Uint64(o.index), InnerOf(o), Hex.DecodePrefix(LeafHash(o)), Prefixes(o.hashes))
  }

  function Header(o: Output): string {
    "Current Root Hash: " + o.rootHash + "\nEntry Hash: " + LeafHash(o) + "\nEntry Index in Current Tree: "
      + FormatInt(o.index, 10)
    + "\nCurrent Tree Size: " + FormatInt(o.size, 10) + "\n"
    + (if |o.checkpoint| > 0 then "Checkpoint:\n" + o.checkpoint + "\n\n" else "\n") + "Inclusion Proof:\n"
  }

  /** One printed line of the chain. */
  function StepText(left: Bytes, right: Bytes, result: Bytes): string {
    "SHA256(0x01 | " + Hex.Encode(left) + " | " + Hex.Encode(right) + ") =\n\t" + Hex.Encode(result) + "\n\n"
  }

  /** The lines of the chain up to the given siblings. */
  function ChainText(sha: Sha, index: nat, inner: nat, leaf: Bytes, hashes: seq<Bytes>): string {
    if hashes == [] then ""
    else
      var n := |hashes| - 1;
      var below := Inclusion.Chain(sha, index, inner, leaf, hashes[..n]);
      var (left, right) := if Inclusion.ChainSide(index, inner, n) == Left then (below, hashes[n])
        else (hashes[n], below);
      ChainText(sha, index, inner, leaf, hashes[..n]) + StepText(left, right, HashChildren(sha, left, right))
  }

  lemma ChainTextStep(sha: Sha, index: nat, inner: nat, leaf: Bytes, hashes: seq<Bytes>, i: nat)
    requires i < |hashes|
    ensures var below := Inclusion.Chain(sha, index, inner, leaf, hashes[..i]);
            var (left, right) := if i < inner && Bits.Bit(index, i) == 0 then (below, hashes[i])
              else (hashes[i], below);
            && Inclusion.Chain(sha, index, inner, leaf, hashes[..i + 1]) == HashChildren(sha, left, right)
            && ChainText(sha, index, inner, leaf, hashes[..i + 1])
               == ChainText(sha, index, inner, leaf, hashes[..i])
                  + StepText(left, right, HashChildren(sha, left, right))
  {
    hide StepText, HashChildren, Bits.Bit;
    assert hashes[..i + 1][..i] == hashes[..i] && hashes[..i + 1][i] == hashes[i];
  }

  /** The loop over the siblings: the hash it ends with and the lines it prints. */
  method PrintChain(sha: Sha, index: nat, inner: nat, leaf: Bytes, hashes: seq<string>)
    returns (result: Bytes, s: string)
    ensures result == Inclusion.Chain(sha, index, inner, leaf, Prefixes(hashes))
    ensures s == ChainText(sha, index, inner, leaf, Prefixes(hashes))
  {
    result, s := leaf, "";
    ghost var all := Prefixes(hashes);
    assert all[..0] == [];
    for i := 0 to |hashes|
      invariant result == Inclusion.Chain(sha, index, inner, leaf, all[..i])
      invariant s == ChainText(sha, index, inner, leaf, all[..i])
    {
      hide StepText, HashChildren, Inclusion.Chain, ChainText, Bits.Bit, Hex.DecodePrefix;
      var left: Bytes, right: Bytes;
      if i < inner && Bits.Bit(index, i) == 0 {
        left := result;
        right := Hex.DecodePrefix(hashes[i]);
      } else {
        left := Hex.DecodePrefix(hashes[i]);
        right := result;
      }
      ChainTextStep(sha, index, inner, leaf, all, i);
      result := HashChildren(sha, left, right);
      s := s + StepText(left, right, result);
    }
    assert all[..|hashes|] == all;
  }

  /** `verifyCmdOutput.String`. */
  method String(sha: Sha, o: Output) returns (s: string)
    ensures var lines := ChainText(sha, Uint64(o.index), InnerOf(o), Hex.DecodePrefix(LeafHash(o)), Prefixes(o.hashes));
            s == Header(o) + lines
                 + "Computed Root Hash: " + Hex.Encode(ComputedRoot(sha, o))
                 + "\nExpected Root Hash: " + o.rootHash + "\n"
  {
    hide Header, Hex.Encode, Hex.DecodePrefix, ChainText, Inclusion.Chain, Prefixes;
    s := Header(o);
    var result, lines := PrintChain(sha, Uint64(o.index), InnerOf(o), Hex.DecodePrefix(LeafHash(o)), o.hashes);
    s := s + lines + "Computed Root Hash: " + Hex.Encode(result) + "\nExpected Root Hash: " + o.rootHash + "\n";
  }

  /** The format of a line, on one step. */
  lemma KnownStep()
    ensures StepText([1], [2], [3]) == "SHA256(0x01 | 01 | 02) =\n\t03\n\n"
  {
    assert Hex.Encode([1]) == "01" && Hex.Encode([2]) == "02" && Hex.Encode([3]) == "03";
    hide Hex.Encode;
  }

  // ----- The checks -----

  function DecodeEntryBody(e: LogEntry): Option<Bytes> { if e.body.None? then None else Base64.Decode(e.body.value) }

  predicate BodyMatchesUUID(sha: Sha, e: LogEntry, entryUUID: string) {
    && DecodeEntryBody(e).Some?
    && GetUUIDFromIDString(entryUUID) == Ok(Hex.Encode(HashLeaf(sha, DecodeEntryBody(e).value)))
  }

  /** `compareEntryUUIDs`: the same UUID, and the same tree when both IDs name one. */
  predicate SameEntry(request: string, response: string) {
    && GetUUIDFromIDString(request).Ok? && GetUUIDFromIDString(response) == GetUUIDFromIDString(request)
    && var (a, b) := (GetTreeIDFromIDString(request), GetTreeIDFromIDString(response));
       if a.Err? then a.error == PLAIN_UUID
       else if b.Err? then b.error == PLAIN_UUID
       else a.value == b.value
  }

  /** A plain UUID on either side is compared by itself, and with a tree on both sides the trees must agree as well. */
  lemma SameEntryIs(request: string, response: string)
    requires GetUUIDFromIDString(request).Ok?
    ensures var sameUUID := GetUUIDFromIDString(response) == GetUUIDFromIDString(request);
            var (a, b) := (GetTreeIDFromIDString(request), GetTreeIDFromIDString(response));
            && (|request| == UUID_LEN ==> (SameEntry(request, response) <==> sameUUID))
            && (|response| == UUID_LEN && a.Ok? ==> (SameEntry(request, response) <==> sameUUID))
            && (a.Ok? && b.Ok? ==> (SameEntry(request, response) <==> sameUUID && a == b))
  {
    hide ParseInt, Hex.IsHex;
  }

  predicate ProposedMatchesBody(sha: Sha, canonical: Bytes, e: LogEntry) {
    DecodeEntryBody(e).Some? && HashLeaf(sha, canonical) == HashLeaf(sha, DecodeEntryBody(e).value)
  }

  function OutputOf(uuid: string, p: InclusionProof): Output {
    Output(p.rootHash, uuid, p.logIndex, p.treeSize, p.hashes, p.checkpoint)
  }

  /**
    The command after the server's answer: `requested` is the UUID flag, `proposed` the canonical
    form of the user's artifact, `keys` how a tree's public key is loaded.
   */
  function Run(env: Env, requested: Option<string>, proposed: Option<Bytes>, keys: int -> Option<Key>, uuid: string,
               e: LogEntry): Result<Output>
    requires e.verification.Some? && e.verification.value.inclusionProof.Some?
  {
    if !BodyMatchesUUID(env.sha, e, uuid) then Err("entry body hash does not match response UUID")
    else if requested.Some? && !SameEntry(requested.value, uuid) then Err("unexpected entry returned from rekor server")
    else if proposed.Some? && !ProposedMatchesBody(env.sha, proposed.value, e) then
      Err("returned entry does not match provided artifact inputs")
    else
      var tid := TreeID(uuid);
      if tid.Err? then Err(tid.error)
      else
        var key := keys(tid.value);
        if key.None? then Err("loading public key")
        else if !Accepted(env, e, key.value) then Err("validating entry")
        else Ok(OutputOf(uuid, e.verification.value.inclusionProof.value))
  }

  /**
    Whatever the server answered, an entry that passes is the one asked for: its ID and the requested one both hold
    the hash of its own body, it is in the requested tree if one was named, and the key of its tree accepted the entry.
   */
  lemma PassedIsTheRequest(env: Env, requested: Option<string>, proposed: Option<Bytes>, keys: int -> Option<Key>,
                           uuid: string, e: LogEntry)
    requires e.verification.Some? && e.verification.value.inclusionProof.Some?
    requires Run(env, requested, proposed, keys, uuid, e).Ok?
    ensures e.body.Some? && Base64.Decode(e.body.value).Some?
    ensures var uuidOfBody := Ok(Hex.Encode(HashLeaf(env.sha, Base64.Decode(e.body.value).value)));
            && GetUUIDFromIDString(uuid) == uuidOfBody
            && (requested.Some? ==>
                  && GetUUIDFromIDString(requested.value) == uuidOfBody
                  && (GetTreeIDFromIDString(requested.value).Ok? ==>
                        GetTreeIDFromIDString(requested.value) == GetTreeIDFromIDString(uuid))
                  && (GetTreeIDFromIDString(requested.value).Ok? || |requested.value| == UUID_LEN))
    ensures TreeID(uuid).Ok? && keys(TreeID(uuid).value).Some? && Accepted(env, e, keys(TreeID(uuid).value).value)
    ensures Run(env, requested, proposed, keys, uuid, e).value
            == OutputOf(uuid, e.verification.value.inclusionProof.value)
  {
    hide Accepted, Base64.Decode, Hex.Encode, HashLeaf, ParseInt, Hex.IsHex;
    if requested.Some? {
      assert ZERO_TREE_ID[0] != PLAIN_UUID[0] && "invalid ID len"[0] != PLAIN_UUID[0];
      assert "could not convert treeID"[1] != PLAIN_UUID[1] && "not a valid hex string"[0] != PLAIN_UUID[0];
    }
  }

  lemma {:induction false} PrefixesDecode(hashes: seq<string>)
    requires DecodeAll(hashes).Some?
    ensures DecodeAll(hashes) == Some(Prefixes(hashes))
  {
    if hashes != [] {
      var n := |hashes| - 1;
      PrefixesDecode(hashes[..n]);
      assert Prefixes(hashes) == Prefixes(hashes[..n]) + [Hex.DecodePrefix(hashes[n])];
    }
  }

  lemma DecodePrefixOfHash(h: Bytes)
    ensures Hex.DecodePrefix(Hex.Encode(h)) == h
  {
    Hex.PrefixOfEncoding(h);
  }

  /** Every output the command returns prints a computed root equal, as bytes, to the expected root. */
  lemma PrintedRootsAreEqual(env: Env, requested: Option<string>, proposed: Option<Bytes>, keys: int -> Option<Key>,
                             uuid: string, e: LogEntry)
    requires e.verification.Some? && e.verification.value.inclusionProof.Some?
    requires Run(env, requested, proposed, keys, uuid, e).Ok?
    ensures var o := Run(env, requested, proposed, keys, uuid, e).value;
            && Hex.Decode(o.rootHash) == Some(ComputedRoot(env.sha, o))
            && Hex.Encode(ComputedRoot(env.sha, o)) == Lower(o.rootHash)
  {
    Hex.EncodeDecoded(e.verification.value.inclusionProof.value.rootHash);
    hide Inclusion.Accepts, Inclusion.Chain, DecodeAll, Base64.Decode, Hex.DecodePrefix, Hex.Encode, Prefixes,
      GetUUIDFromIDString, CheckpointHolds, TimestampHolds, SameEntry, TreeID, Inclusion.ChainInner,
      Inclusion.ProofLength, Hex.IsHex;
    var p := e.verification.value.inclusionProof.value;
    var (leaf, hashes, root) := Claim(env, e).value;
    PrefixesDecode(p.hashes);
    DecodePrefixOfHash(leaf);
    Inclusion.ChainRefinesVerifier(env.sha, Uint64(p.logIndex), Uint64(p.treeSize), leaf, hashes, root);
  }

  /** With an artifact at hand, the verified entry is the user's own, or the two bodies collide. */
  lemma ProposedEntryIsTheBody(env: Env, requested: Option<string>, canonical: Bytes, keys: int -> Option<Key>,
                               uuid: string, e: LogEntry)
    requires e.verification.Some? && e.verification.value.inclusionProof.Some?
    requires Run(env, requested, Some(canonical), keys, uuid, e).Ok?
    ensures var body := DecodeEntryBody(e).value;
            canonical == body || IsCollision(env.sha, (LeafPreimage(canonical), LeafPreimage(body)))
  {
    hide Accepted, GetUUIDFromIDString, TreeID, SameEntry, Base64.Decode;
    var body := DecodeEntryBody(e).value;
    if canonical != body {
      assert LeafPreimage(canonical)[1..] == canonical && LeafPreimage(body)[1..] == body;
    }
  }

  /** What an honest server assembles passes the whole command, for the one who asks by its ID or holds its artifact. */
  lemma HonestEntryPasses(env: Env, keys: int -> Option<Key>, tid: int, body: Bytes, id: string, e: LogEntry, key: Key)
    requires Accepted(env, e, key) && keys(tid) == Some(key)
    requires e.body == Some(Base64.Encode(body))
    requires TreeID(id) == Ok(tid) && GetUUIDFromIDString(id) == Ok(Hex.Encode(HashLeaf(env.sha, body)))
    ensures Run(env, Some(id), Some(body), keys, id, e) == Ok(OutputOf(id, e.verification.value.inclusionProof.value))
  {
    hide Accepted, Base64.Decode, Base64.Encode, Hex.Encode, GetUUIDFromIDString, GetTreeIDFromIDString, HashLeaf;
    Base64.RoundTrip(body);
    AcceptedHasProof(env, e, key);
  }

  lemma AcceptedHasProof(env: Env, e: LogEntry, key: Key)
    requires Accepted(env, e, key)
    ensures e.verification.Some? && e.verification.value.inclusionProof.Some?
  {
    hide CheckpointHolds, TimestampHolds, Inclusion.Accepts, DecodeAll;
  }

  /**
    So the entry of a leaf of an honest log, with a cached or a fresh checkpoint, passes the whole command
    if and only if the leaf is not empty and the checkpoint commits to the proof's root.
   */
  lemma AssembledPassesIff(s: Server, log: seq<Bytes>, m: nat, p: Proven, tid: int, cp: Sharding.LogRoot,
                           cpSigners: seq<Signer>, keys: int -> Option<Key>)
    requires s.env.Lawful() && IsInt64(tid)
    requires EndToEnd.Honest(s.env.sha, log, m, p) && EntryOf(s, p, tid).Some?
    requires EndToEnd.EntryCheckpointFor(s, p.root, tid, cp, cpSigners)
    requires keys(tid) == EndToEnd.PrimaryKey(s, tid)
    ensures var (id, e) := EntryOf(s, p, tid).value;
            && e.verification.Some? && e.verification.value.inclusionProof.Some?
            && var r := Run(s.env, Some(id), Some(log[m]), keys, id, e);
               && (r.Ok? <==> log[m] != [] && s.env.equalFold(p.root.hash, cp.hash))
               && (r.Ok? ==> r == Ok(OutputOf(id, e.verification.value.inclusionProof.value)))
  {
    hide Accepted, Base64.Encode, Hex.Encode, TreeHash, AuditPath, EntryOf, EndToEnd.EntryCheckpointFor,
      BodyMatchesUUID, SameEntry, ProposedMatchesBody, TreeID, GetUUIDFromIDString, EndToEnd.PrimaryKey,
      Sharding.VirtualFrom, HashLeaf;
    var (id, e) := EntryOf(s, p, tid).value;
    EndToEnd.AssembledIsAcceptedIff(s, log, m, p, tid, cp, cpSigners);
    EntryHasProof(s, p, tid);
    if Accepted(s.env, e, EndToEnd.PrimaryKey(s, tid).value) {
      HonestEntryPasses(s.env, keys, tid, log[m], id, e, EndToEnd.PrimaryKey(s, tid).value);
    }
  }

  lemma EntryHasProof(s: Server, p: Proven, tid: int)
    requires EntryOf(s, p, tid).Some?
    ensures var e := EntryOf(s, p, tid).value.1; e.verification.Some? && e.verification.value.inclusionProof.Some?
  {
    hide SignEntry, CheckpointText, CreateEntryIDFromParts, Hex.Encode, Sharding.RangeOf, HexAll, Additional,
      Sharding.VirtualFrom;
  }

  /** In particular, a non-empty leaf with a checkpoint signed now passes. */
  lemma FreshEntryPasses(s: Server, log: seq<Bytes>, m: nat, p: Proven, tid: int, keys: int -> Option<Key>)
    requires s.env.Lawful() && IsInt64(tid) && tid !in s.cached && keys(tid) == EndToEnd.PrimaryKey(s, tid)
    requires EndToEnd.Honest(s.env.sha, log, m, p) && log[m] != []
    requires EntryOf(s, p, tid).Some? && Sharding.RangeOf(s.ranges, tid).Some?
    requires var n := NoteFor(s.env.scheme, s.hostname, tid, p.root, Sharding.RangeOf(s.ranges, tid).value.signers);
             n.Some? ==> EndToEnd.Prints(s.hostname, n.value)
    ensures var (id, e) := EntryOf(s, p, tid).value;
            && e.verification.Some? && e.verification.value.inclusionProof.Some?
            && Run(s.env, Some(id), Some(log[m]), keys, id, e)
               == Ok(OutputOf(id, e.verification.value.inclusionProof.value))
  {
    hide EntryOf, Run, EndToEnd.Honest, EndToEnd.PrimaryKey, EndToEnd.EntryCheckpointFor, Sharding.RangeOf, NoteFor,
      EndToEnd.Prints;
    EndToEnd.FreshCheckpointIsFor(s, p, tid);
    AssembledPassesIff(s, log, m, p, tid, p.root, Sharding.RangeOf(s.ranges, tid).value.signers, keys);
  }
}
