/** What a client checks of a log entry and of a new checkpoint (pkg/verify/verify.go). */
module Verify {
  import opened Basics
  import opened Bits
  import opened Checkpoints
  import opened Merkle
  import opened Signing
  import Base64
  import Consistency
  import Hex
  import Inclusion
  import Notes = SignedNotes

  // ----- Entries as they travel -----

  datatype InclusionProof = InclusionProof(treeSize: int, rootHash: string, logIndex: int, hashes: seq<string>,
                                           checkpoint: string)

  datatype Verification = Verification(
    inclusionProof: Option<InclusionProof>,
    signedEntryTimestamp: Option<Bytes>,
    additionalTimestamps: seq<(string, Bytes)>)

  /** `body` is None when it is no JSON string. */
  datatype LogEntry = LogEntry(
    body: Option<string>,
    integratedTime: int,
    logID: string,
    logIndex: int,
    verification: Option<Verification>)

  datatype Json = JNull | JString(s: string) | JNumber(n: int)

  /** Members of a JSON object in the order a struct is marshalled. */
  type Fields = seq<(string, Json)>

  /** The object itself: order does not matter. */
  function ObjectOf(fields: Fields): map<string, Json> {
    if fields == [] then map[] else ObjectOf(fields[..|fields| - 1])[fields[|fields| - 1].0 := fields[|fields| - 1].1]
  }

  /** The hash, the signatures, RFC 8785 canonicalization of an object, and `bytes.EqualFold`. */
  datatype Env = Env(
    sha: Sha,
    scheme: Scheme,
    canonical: map<string, Json> -> string,
    equalFold: (Bytes, Bytes) -> bool
  ) {
    ghost predicate Lawful() {
      scheme.Correct() && scheme.NonEmpty() && forall b: Bytes :: equalFold(b, b)
    }
  }

  // ----- The checks -----

  /** Every hash, decoded, or None when one of them is not hexadecimal. */
  function DecodeAll(hashes: seq<string>): Option<seq<Bytes>> {
    if hashes == [] then Some([])
    else
      var n := |hashes| - 1;
      var before, last := DecodeAll(hashes[..n]), Hex.Decode(hashes[n]);
      if before.None? || last.None? then None else Some(before.value + [last.value])
  }

  method DecodeHashes(hashes: seq<string>) returns (r: Option<seq<Bytes>>)
    ensures r == DecodeAll(hashes)
  {
    var decoded: seq<Bytes> := [];
    for i := 0 to |hashes|
      invariant DecodeAll(hashes[..i]) == Some(decoded)
    {
      assert hashes[..i + 1][..i] == hashes[..i];
      var h := Hex.Decode(hashes[i]);
      if h.None? {
        DecodeAllFails(hashes, i);
        return None;
      }
      decoded := decoded + [h.value];
    }
    assert hashes[..|hashes|] == hashes;
    r := Some(decoded);
  }

  lemma {:induction false} DecodeAllFails(hashes: seq<string>, i: nat)
    requires i < |hashes| && Hex.Decode(hashes[i]).None?
    ensures DecodeAll(hashes).None?
  {
    var n := |hashes| - 1;
    if i < n {
      DecodeAllFails(hashes[..n], i);
    }
  }

  /** The leaf, siblings and root an entry claims, when all of them decode. */
  function Claim(env: Env, e: LogEntry): Option<(Digest, seq<Bytes>, Bytes)> {
    if e.verification.None? || e.verification.value.inclusionProof.None? then None
    else
      var p := e.verification.value.inclusionProof.value;
      var hashes, root := DecodeAll(p.hashes), Hex.Decode(p.rootHash);
      if hashes.None? || root.None? || e.body.None? || Base64.Decode(e.body.value).None? then None
      else Some((HashLeaf(env.sha, Base64.Decode(e.body.value).value), hashes.value, root.value))
  }

  predicate InclusionHolds(env: Env, e: LogEntry) {
    var claim := Claim(env, e);
    claim.Some?
    && var p := e.verification.value.inclusionProof.value;
       Inclusion.Accepts(env.sha, Uint64(p.logIndex), Uint64(p.treeSize), claim.value.0, claim.value.1, claim.value.2)
  }

  method VerifyInclusion(env: Env, e: LogEntry) returns (ok: bool)
    ensures ok == InclusionHolds(env, e)
  {
    hide Inclusion.Accepts, DecodeAll, Base64.Decode, Hex.Decode;
    if e.verification.None? || e.verification.value.inclusionProof.None? {
      return false;
    }
    var p := e.verification.value.inclusionProof.value;
    var hashes := DecodeHashes(p.hashes);
    if hashes.None? {
      return false;
    }
    var root := Hex.Decode(p.rootHash);
    if root.None? || e.body.None? {
      return false;
    }
    var entryBytes := Base64.Decode(e.body.value);
    if entryBytes.None? {
      return false;
    }
    ok := Inclusion.VerifyInclusion(env.sha, Uint64(p.logIndex), Uint64(p.treeSize),
                                    HashLeaf(env.sha, entryBytes.value), hashes.value, root.value);
  }

  /** A checkpoint signed by the key, over the root the proof leads to. */
  predicate CheckpointHolds(env: Env, p: InclusionProof, key: Key) {
    var sth, root := ParseSigned(p.checkpoint), Hex.Decode(p.rootHash);
    && sth.Ok? && Notes.Verifies(env.scheme, sth.value.note, key)
    && root.Some? && env.equalFold(root.value, sth.value.checkpoint.hash)
  }

  /** The four members the client signs off, in the order it marshals them. */
  function ClientFields(e: LogEntry): Fields {
    [("body", if e.body.Some? then JString(e.body.value) else JNull),
     ("integratedTime", JNumber(e.integratedTime)),
     ("logIndex", JNumber(e.logIndex)),
     ("logID", JString(e.logID))]
  }

  predicate TimestampHolds(env: Env, e: LogEntry, key: Key) {
    && e.verification.Some? && e.verification.value.signedEntryTimestamp.Some?
    && env.scheme.verify(key, e.verification.value.signedEntryTimestamp.value, env.canonical(ObjectOf(ClientFields(e))))
  }

  /** `VerifyLogEntry`: inclusion up to the root, the signed checkpoint over it, and the signed entry timestamp. */
  predicate Accepted(env: Env, e: LogEntry, key: Key) {
    && InclusionHolds(env, e)
    && CheckpointHolds(env, e.verification.value.inclusionProof.value, key)
    && TimestampHolds(env, e, key)
  }

  /**
    Acceptance rests on a signed entry timestamp: one is there, and the key verifies it over the canonical form
    of the object with the entry's own body, time, index and log ID.
   */
  lemma AcceptedTimestampVerifies(env: Env, e: LogEntry, key: Key)
    requires Accepted(env, e, key)
    ensures e.verification.Some? && e.verification.value.signedEntryTimestamp.Some?
    ensures var payload := map[
              "body" := if e.body.Some? then JString(e.body.value) else JNull,
              "integratedTime" := JNumber(e.integratedTime),
              "logIndex" := JNumber(e.logIndex),
              "logID" := JString(e.logID)];
            env.scheme.verify(key, e.verification.value.signedEntryTimestamp.value, env.canonical(payload))
  {
    hide InclusionHolds, CheckpointHolds;
    FourFields(ClientFields(e));
  }

  lemma FourFields(f: Fields)
    requires |f| == 4
    ensures ObjectOf(f) == map[][f[0].0 := f[0].1][f[1].0 := f[1].1][f[2].0 := f[2].1][f[3].0 := f[3].1]
  {
    var (f3, f2, f1) := (f[..3], f[..2], f[..1]);
    assert f3[..2] == f2 && f2[..1] == f1 && f1[..0] == [];
    assert ObjectOf(f1) == map[][f[0].0 := f[0].1];
    assert ObjectOf(f2) == ObjectOf(f1)[f[1].0 := f[1].1];
    assert ObjectOf(f3) == ObjectOf(f2)[f[2].0 := f[2].1];
  }

  /**
    Acceptance rests on a signed checkpoint: of its signatures the first with the key's hint verifies over the
    note's own text, and that text is the checkpoint whose root is compared with the proof's.
   */
  lemma AcceptedCheckpointVerifies(env: Env, e: LogEntry, key: Key) returns (i: nat)
    requires Accepted(env, e, key)
    ensures e.verification.Some? && e.verification.value.inclusionProof.Some?
    ensures var p := e.verification.value.inclusionProof.value;
            var n := Notes.Parse(p.checkpoint);
            && n.Ok? && i < |n.value.signatures| && Some(n.value.signatures[i].hint) == env.scheme.hint(key)
            && (forall j :: 0 <= j < i ==> Some(n.value.signatures[j].hint) != env.scheme.hint(key))
            && Base64.Decode(n.value.signatures[i].base64).Some?
            && env.scheme.verify(key, Base64.Decode(n.value.signatures[i].base64).value, n.value.text)
            && Parse(n.value.text).Ok? && Hex.Decode(p.rootHash).Some?
            && env.equalFold(Hex.Decode(p.rootHash).value, Parse(n.value.text).value.hash)
  {
    hide TimestampHolds, Notes.Parse, Parse, Base64.Decode, Hex.Decode, DecodeAll, Inclusion.Accepts;
    var p := e.verification.value.inclusionProof.value;
    var n := ParseSigned(p.checkpoint).value.note;
    var hint := env.scheme.hint(key).value;
    i :| && 0 <= i < |n.signatures| && Notes.FirstWithHint(n.signatures, hint, i)
         && Notes.SignatureHolds(env.scheme, key, n.signatures[i], n.text);
  }

  /** The index, size, body and siblings an accepted entry claims, as the verifier reads them. */
  function ClaimedIndex(e: LogEntry): nat
    requires e.verification.Some? && e.verification.value.inclusionProof.Some?
  {
    Uint64(e.verification.value.inclusionProof.value.logIndex)
  }

  function ClaimedSize(e: LogEntry): nat
    requires e.verification.Some? && e.verification.value.inclusionProof.Some?
  {
    Uint64(e.verification.value.inclusionProof.value.treeSize)
  }

  function BodyOf(e: LogEntry): Bytes {
    if e.body.Some? && Base64.Decode(e.body.value).Some? then Base64.Decode(e.body.value).value else []
  }

  lemma InclusionIs(env: Env, e: LogEntry)
    requires InclusionHolds(env, e)
    ensures e.verification.Some? && e.verification.value.inclusionProof.Some? && Claim(env, e).Some?
    ensures ClaimedIndex(e) < ClaimedSize(e)
    ensures var (_, hashes, root) := Claim(env, e).value;
            Inclusion.Accepts(env.sha, ClaimedIndex(e), ClaimedSize(e), HashLeaf(env.sha, BodyOf(e)), hashes, root)
  {
    hide Base64.Decode, DecodeAll, Hex.Decode, Sides, Climb, HashLeaf;
  }

  /**
    An accepted body is the entry that the claimed index and size lead to in every log that has the proof's root
    as its tree hash. It sits at the claimed index exactly when that index forks from the last entry of the log
    at the level at which it forks from the last of the claimed size. Or the proof yields a hash collision.
   */
  lemma AcceptedBodyIsInLog(env: Env, e: LogEntry, log: seq<Bytes>)
    requires InclusionHolds(env, e) && Claim(env, e).value.2 == TreeHash(env.sha, log)
    ensures ClaimedIndex(e) < ClaimedSize(e)
    ensures var (index, size) := (ClaimedIndex(e), ClaimedSize(e));
            var sides := Sides(index, size);
            || IsCollision(env.sha, Inclusion.StrayPair(env.sha, log, sides, BodyOf(e), Claim(env, e).value.1))
            || (&& Inclusion.LeadsTo(log, sides, BodyOf(e))
                && (Inclusion.PlaceOf(|log|, sides) == Some(index)
                    <==> index < |log| && Len(Xor(index, size - 1)) == Len(Xor(index, |log| - 1))))
  {
    hide *;
    InclusionIs(env, e);
    Inclusion.IndexIsRightIff(env.sha, log, ClaimedIndex(e), ClaimedSize(e), BodyOf(e), Claim(env, e).value.1);
  }

  /**
    With the size of that log, the accepted body is its entry at the claimed index, or the proof yields a collision.
   */
  lemma AcceptedBodyIsAtItsIndex(env: Env, e: LogEntry, log: seq<Bytes>)
    requires InclusionHolds(env, e) && Claim(env, e).value.2 == TreeHash(env.sha, log) && ClaimedSize(e) == |log|
    ensures var (index, hashes) := (ClaimedIndex(e), Claim(env, e).value.1);
            && index < |log| && |hashes| == |Sides(index, |log|)|
            && (|| (BodyOf(e) == log[index] && hashes == AuditPath(env.sha, index, log))
                || IsCollision(env.sha, Inclusion.ForgedPair(env.sha, index, log, BodyOf(e), hashes)))
  {
    hide TreeHash, Sides, Climb, AuditPath, IsCollision, Inclusion.ForgedPair, HashLeaf, InclusionHolds, Claim, BodyOf;
    InclusionIs(env, e);
    Inclusion.Soundness(env.sha, ClaimedIndex(e), log, BodyOf(e), Claim(env, e).value.1);
  }

  /** The checkpoint an accepted entry carries. */
  function SignedRoot(e: LogEntry): Option<Checkpoint> {
    if e.verification.None? || e.verification.value.inclusionProof.None? then None
    else
      var sth := ParseSigned(e.verification.value.inclusionProof.value.checkpoint);
      if sth.Err? then None else Some(sth.value.checkpoint)
  }

  /**
    The log behind the checkpoint the key signed holds an accepted body, provided that the two roots are the same
    bytes and not only the same up to letter case. The client compares no sizes: the claimed index is right
    exactly when it forks from the last entry of the signed tree at the level of the claimed one.
   */
  lemma SignedLogHoldsBody(env: Env, e: LogEntry, key: Key, log: seq<Bytes>)
    requires Accepted(env, e, key) && SignedRoot(e).Some?
    requires SignedRoot(e).value.hash == TreeHash(env.sha, log) && SignedRoot(e).value.size == |log|
    requires Claim(env, e).value.2 == SignedRoot(e).value.hash
    ensures ClaimedIndex(e) < ClaimedSize(e)
    ensures var (index, size, signed) := (ClaimedIndex(e), ClaimedSize(e), SignedRoot(e).value.size);
            var sides := Sides(index, size);
            || IsCollision(env.sha, Inclusion.StrayPair(env.sha, log, sides, BodyOf(e), Claim(env, e).value.1))
            || (&& Inclusion.LeadsTo(log, sides, BodyOf(e))
                && (Inclusion.PlaceOf(|log|, sides) == Some(index)
                    <==> index < signed && Len(Xor(index, size - 1)) == Len(Xor(index, signed - 1))))
  {
    hide InclusionHolds, SignedRoot, Claim, Sides, TreeHash, IsCollision, Inclusion.StrayPair, Inclusion.LeadsTo,
      Inclusion.PlaceOf, Len, Xor, BodyOf, ClaimedIndex, ClaimedSize, CheckpointHolds, TimestampHolds;
    AcceptedBodyIsInLog(env, e, log);
  }

  // ----- Consistency between checkpoints -----

  /** `ProveConsistency`, given the hashes the server answers with (None when the request fails). */
  predicate Consistent(sha: Sha, before: Checkpoint, after: Checkpoint, answer: Option<seq<string>>) {
    var size1, size2 := Int64(before.size), Int64(after.size);
    if size1 == 0 then false
    else if size1 == size2 then before.hash == after.hash
    else if size1 < size2 then
      && answer.Some? && DecodeAll(answer.value).Some?
      && before.size != 0
      && Consistency.AcceptsConsistency(sha, before.size, after.size, DecodeAll(answer.value).value, before.hash,
                                        after.hash)
    else false
  }

  method ProveConsistency(sha: Sha, before: Checkpoint, after: Checkpoint, answer: Option<seq<string>>)
    returns (ok: bool)
    ensures ok == Consistent(sha, before, after, answer)
  {
    hide Consistency.AcceptsConsistency, DecodeAll;
    var oldTreeSize := Int64(before.size);
    if oldTreeSize == 0 {
      return false;
    } else if oldTreeSize == Int64(after.size) {
      return before.hash == after.hash;
    } else if oldTreeSize < Int64(after.size) {
      if answer.None? {
        return false;
      }
      var hashes := DecodeHashes(answer.value);
      if hashes.None? {
        return false;
      }
      CastsAreInverse(before.size);
      ok := Consistency.VerifyConsistency(sha, before.size, after.size, hashes.value, before.hash, after.hash);
    } else {
      return false;
    }
  }

  /** Despite the casts to int64, an accepted checkpoint is never smaller, and one of the same size is the same tree. */
  lemma ConsistentNeverShrinks(sha: Sha, before: Checkpoint, after: Checkpoint, answer: Option<seq<string>>)
    requires Consistent(sha, before, after, answer)
    ensures 0 < before.size <= after.size
    ensures before.size == after.size ==> before.hash == after.hash
  {
    hide Consistency.LinksRoots, DecodeAll;
    CastsAreInverse(before.size);
    CastsAreInverse(after.size);
  }

  /** The bytes on which a consistent pair of logs that do not extend each other would collide. */
  function ConsistentPair(sha: Sha, before: seq<Bytes>, after: seq<Bytes>, answer: Option<seq<string>>)
    : (Bytes, Bytes)
  {
    if |before| == |after| then Consistency.TreePair(sha, before, after)
    else if 0 < |before| && answer.Some? && DecodeAll(answer.value).Some?
            && Consistency.AcceptsConsistency(sha, |before|, |after|, DecodeAll(answer.value).value,
                                              TreeHash(sha, before), TreeHash(sha, after))
    then Consistency.ConsistencyPair(sha, before, after, DecodeAll(answer.value).value)
    else ([], [])
  }

  /**
    Two accepted checkpoints of real logs: the earlier log is a prefix of the later one, or the proof yields a
    collision.
   */
  lemma ConsistentExtends(sha: Sha, before: Checkpoint, after: Checkpoint, answer: Option<seq<string>>, log: seq<Bytes>,
                          log': seq<Bytes>)
    requires Consistent(sha, before, after, answer)
    requires before.size == |log| && before.hash == TreeHash(sha, log)
    requires after.size == |log'| && after.hash == TreeHash(sha, log')
    ensures log <= log' || IsCollision(sha, ConsistentPair(sha, log, log', answer))
  {
    hide Consistency.AcceptsConsistency, DecodeAll, TreeHash, Consistency.TreePair, Consistency.ConsistencyPair;
    CastsAreInverse(before.size);
    CastsAreInverse(after.size);
    if |log| == |log'| {
      Consistency.TreeHashBinds(sha, log, log');
    } else {
      Consistency.ConsistencySoundness(sha, log, log', DecodeAll(answer.value).value);
    }
  }
}
