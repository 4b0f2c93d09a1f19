/** Looking entries up by ID and by index across the shards (pkg/api/entries.go), whatever the log servers answer. */
module Retrieval {
  import opened Basics
  import opened Entries
  import opened EntryIDs
  import opened Merkle
  import opened Sharding
  import opened Verify
  import opened Signing
  import Base64
  import EndToEnd
  import Hex
  import Inclusion
  import Numerals
  import Trillian = TrillianClients
  import VerifyCommand

  /** `NoResult` is an answer the code has no branch for: it reads a result or a leaf that is not there. */
  datatype Outcome = Found(id: string, entry: LogEntry) | Missing | Failed(error: string) | NoResult

  /** What the server of a tree answers; `client` is false when no client for it can be had. */
  datatype Answers = Answers(
    client: bool,
    latest: Trillian.Rpc<Bytes>,
    proofs: Trillian.Rpc<seq<Option<Trillian.Proof>>>,
    leaves: Trillian.Rpc<seq<Trillian.Leaf>>,
    byIndex: Trillian.Rpc<(Option<Trillian.Proof>, Option<Trillian.Leaf>)>)

  /** A server and how it decodes a signed root. */
  datatype Setting = Setting(server: Server, unmarshal: Bytes -> Option<LogRoot>) {
    function TrillianEnv(): Trillian.Env { Trillian.Env(server.env.sha, unmarshal) }
  }

  /** `logEntryFromLeaf` on a result of the Trillian client. */
  function EntryFrom(st: Setting, tid: int, leaf: Trillian.Leaf, r: Trillian.LeafAndProof): Outcome {
    var root := st.unmarshal(r.signedRoot);
    var e := if root.None? then None
             else EntryOf(st.server, Proven(leaf, root.value, r.proof.leafIndex, r.proof.hashes), tid);
    if e.None? then Failed("creating log entry from leaf") else Found(e.value.0, e.value.1)
  }

  function ByHash(st: Setting, a: Answers, hash: Bytes): Trillian.Response {
    Trillian.GetLeafAndProofByHash(st.TrillianEnv(), hash, a.latest, a.proofs, a.leaves)
  }

  /** `retrieveUUIDFromTree`. */
  function FromTree(st: Setting, backend: int -> Answers, uuid: string, tid: int): Outcome {
    var hash, a := Hex.Decode(uuid), backend(tid);
    if RangeOf(st.server.ranges, tid).None? then Missing
    else if hash.None? then Failed("parsing UUID")
    else if !a.client then Failed("getting log client")
    else
      var r := ByHash(st, a, hash.value);
      if r.status == Trillian.NotFound then Missing
      else if r.status != Trillian.OK then Failed("unexpected error")
      else if r.leafAndProof.None? || r.leafAndProof.value.leaf.None? then NoResult
      else EntryFrom(st, tid, r.leafAndProof.value.leaf.value, r.leafAndProof.value)
  }

  /** The first shard that has the entry or fails to say. */
  function Search(st: Setting, backend: int -> Answers, uuid: string, trees: seq<LogRange>): Outcome {
    if trees == [] then Missing
    else
      var first := FromTree(st, backend, uuid, trees[0].treeID);
      if first.Missing? then Search(st, backend, uuid, trees[1..]) else first
  }

  function Trees(r: Ranges): seq<LogRange> { [r.active] + r.inactive }

  /** The tree the ID names, or all of them, the active one first. */
  function Retrieved(st: Setting, backend: int -> Answers, request: string): Outcome {
    var uuid, tid := GetUUIDFromIDString(request), TreeID(request);
    if uuid.Err? then Failed(PLAIN_UUID)
    else if tid.Ok? then FromTree(st, backend, uuid.value, tid.value)
    else if tid.error == PLAIN_UUID then Search(st, backend, uuid.value, Trees(st.server.ranges))
    else Failed(tid.error)
  }

  /** `retrieveLogEntry`. */
  method RetrieveLogEntry(st: Setting, backend: int -> Answers, request: string) returns (r: Outcome)
    ensures r == Retrieved(st, backend, request)
  {
    hide FromTree, GetUUIDFromIDString, TreeID;
    var uuid := GetUUIDFromIDString(request);
    if uuid.Err? {
      return Failed(PLAIN_UUID);
    }
    var tid := TreeID(request);
    if tid.Ok? {
      r := FromTree(st, backend, uuid.value, tid.value);
      return;
    }
    if tid.error != PLAIN_UUID {
      return Failed(tid.error);
    }
    var trees := [st.server.ranges.active] + st.server.ranges.inactive;
    for i := 0 to |trees|
      invariant Search(st, backend, uuid.value, trees) == Search(st, backend, uuid.value, trees[i..])
    {
      r := FromTree(st, backend, uuid.value, trees[i].treeID);
      if !r.Missing? {
        return;
      }
      assert trees[i..][1..] == trees[i + 1..];
    }
    r := Missing;
  }

  /** The search ends at the first shard that does not miss the entry, and misses it only when all of them do. */
  lemma {:induction false} SearchEndsAtFirst(st: Setting, backend: int -> Answers, uuid: string, trees: seq<LogRange>)
    ensures var r := Search(st, backend, uuid, trees);
            if r.Missing? then forall i :: 0 <= i < |trees| ==> FromTree(st, backend, uuid, trees[i].treeID).Missing?
            else exists k :: && 0 <= k < |trees| && r == FromTree(st, backend, uuid, trees[k].treeID)
                             && forall i :: 0 <= i < k ==> FromTree(st, backend, uuid, trees[i].treeID).Missing?
  {
    hide FromTree;
    if trees != [] && FromTree(st, backend, uuid, trees[0].treeID).Missing? {
      var rest := trees[1..];
      SearchEndsAtFirst(st, backend, uuid, rest);
      var r := Search(st, backend, uuid, rest);
      if !r.Missing? {
        var k :| && 0 <= k < |rest| && r == FromTree(st, backend, uuid, rest[k].treeID)
                 && forall i :: 0 <= i < k ==> FromTree(st, backend, uuid, rest[i].treeID).Missing?;
        assert r == FromTree(st, backend, uuid, trees[k + 1].treeID);
        assert forall i :: 0 < i < k + 1 ==> trees[i] == rest[i - 1];
      } else {
        assert forall i :: 0 < i < |trees| ==> trees[i] == rest[i - 1];
      }
    }
  }

  // ----- What comes back is what was asked for -----

  /**
    An entry found in a tree: its ID names that tree and the leaf hash asked for, and its proof was verified for
    that hash.
   */
  predicate Delivers(st: Setting, backend: int -> Answers, uuid: string, tid: int, id: string) {
    && RangeOf(st.server.ranges, tid).Some? && Hex.Decode(uuid).Some?
    && var hash := Hex.Decode(uuid).value;
       var r := ByHash(st, backend(tid), hash);
       && r.leafAndProof.Some? && Trillian.Trustworthy(st.TrillianEnv(), hash, r.leafAndProof.value)
       && TreeID(id) == Ok(tid)
       && GetTreeIDFromIDString(id) == PadToTreeIDLen(HexTreeID(tid))
       && GetUUIDFromIDString(id) == Ok(Hex.Encode(hash))
  }

  lemma EntryIDOf(st: Setting, tid: int, leaf: Trillian.Leaf, r: Trillian.LeafAndProof)
    requires IsInt64(tid) && EntryFrom(st, tid, leaf, r).Found?
    ensures var id := EntryFrom(st, tid, leaf, r).id;
            && TreeID(id) == Ok(tid)
            && GetTreeIDFromIDString(id) == PadToTreeIDLen(HexTreeID(tid))
            && GetUUIDFromIDString(id) == Ok(Hex.Encode(leaf.merkleLeafHash))
  {
    hide TreeID, GetTreeIDFromIDString, GetUUIDFromIDString, CreateEntryIDFromParts, PadToTreeIDLen, Hex.Encode,
      SignEntry, Assemble, CheckpointText, VirtualFrom, FirstRange;
    EntryIDRoundTrip(tid, Hex.Encode(leaf.merkleLeafHash));
  }

  lemma FromTreeDelivers(st: Setting, backend: int -> Answers, uuid: string, tid: int)
    requires IsInt64(tid) && FromTree(st, backend, uuid, tid).Found?
    ensures Delivers(st, backend, uuid, tid, FromTree(st, backend, uuid, tid).id)
  {
    hide Trillian.GetLeafAndProofByHash, Hex.Decode, EntryFrom, TreeID, GetTreeIDFromIDString, GetUUIDFromIDString,
      PadToTreeIDLen, Trillian.Proves;
    var (hash, a) := (Hex.Decode(uuid).value, backend(tid));
    Trillian.ByHashIsTrustworthy(st.TrillianEnv(), hash, a.latest, a.proofs, a.leaves);
    var r := ByHash(st, a, hash).leafAndProof.value;
    EntryIDOf(st, tid, r.leaf.value, r);
  }

  predicate Int64Trees(r: Ranges) { forall i :: 0 <= i < |Trees(r)| ==> IsInt64(Trees(r)[i].treeID) }

  /** The tree a request was answered from: the one it names, or else one of the shards. */
  ghost predicate AnsweredFrom(st: Setting, backend: int -> Answers, request: string, tid: int, id: string) {
    && GetUUIDFromIDString(request).Ok?
    && Delivers(st, backend, GetUUIDFromIDString(request).value, tid, id)
    && (if TreeID(request).Ok? then TreeID(request) == Ok(tid)
        else exists i :: 0 <= i < |Trees(st.server.ranges)| && Trees(st.server.ranges)[i].treeID == tid)
  }

  /**
    Whatever the log servers answer, an entry that comes back has the leaf hash and the tree asked for, with a
    verified proof.
   */
  lemma RetrievedIsRequested(st: Setting, backend: int -> Answers, request: string) returns (tid: int)
    requires Int64Trees(st.server.ranges) && Retrieved(st, backend, request).Found?
    ensures AnsweredFrom(st, backend, request, tid, Retrieved(st, backend, request).id)
  {
    hide FromTree, GetUUIDFromIDString, GetTreeIDFromIDString, Delivers, Numerals.ParseInt;
    var uuid := GetUUIDFromIDString(request).value;
    if TreeID(request).Ok? {
      tid := TreeID(request).value;
      ParsedTreeID(request);
    } else {
      var trees := Trees(st.server.ranges);
      SearchEndsAtFirst(st, backend, uuid, trees);
      var k :| 0 <= k < |trees| && Retrieved(st, backend, request) == FromTree(st, backend, uuid, trees[k].treeID);
      tid := trees[k].treeID;
    }
    FromTreeDelivers(st, backend, uuid, tid);
  }

  lemma ParsedTreeID(id: string)
    requires TreeID(id).Ok?
    ensures IsInt64(TreeID(id).value)
  {
    hide GetTreeIDFromIDString;
  }

  /** A request in the very form in which the server writes IDs. */
  predicate Canonical(request: string) {
    && GetUUIDFromIDString(request).Ok? && Hex.Decode(GetUUIDFromIDString(request).value).Some?
    && GetUUIDFromIDString(request).value == Hex.Encode(Hex.Decode(GetUUIDFromIDString(request).value).value)
    && (TreeID(request).Ok? ==> GetTreeIDFromIDString(request) == PadToTreeIDLen(HexTreeID(TreeID(request).value)))
  }

  /** The client's comparison of the ID it asked for with the one it got passes exactly for canonical requests. */
  lemma ClientAgreesIff(st: Setting, backend: int -> Answers, request: string)
    requires Int64Trees(st.server.ranges) && Retrieved(st, backend, request).Found?
    ensures VerifyCommand.SameEntry(request, Retrieved(st, backend, request).id) <==> Canonical(request)
  {
    var tid := RetrievedIsRequested(st, backend, request);
    TreeIDParts(request);
    hide FromTree, GetUUIDFromIDString, GetTreeIDFromIDString, PadToTreeIDLen, Hex.Encode, Hex.Decode, TreeID, Search,
      Trillian.Trustworthy, ByHash, RangeOf;
  }

  lemma TreeIDParts(id: string)
    ensures TreeID(id).Err? && TreeID(id).error == PLAIN_UUID <==> GetTreeIDFromIDString(id) == Err(PLAIN_UUID)
    ensures GetTreeIDFromIDString(id).Err? ==> TreeID(id).Err? && TreeID(id).error == GetTreeIDFromIDString(id).error
  {
    hide GetTreeIDFromIDString, Numerals.ParseInt;
    assert "could not convert treeID"[1] != PLAIN_UUID[1];
  }

  /** What the command line flag and the request patterns let through: 64 or 80 hexadecimal digits of either case. */
  predicate Received(request: string) {
    (|request| == UUID_LEN || |request| == ENTRY_ID_LEN) && Numerals.AllDigits(request, 16)
  }

  /** Sixteen digits that parse as a tree ID are written again as the same digits in lower case. */
  lemma TreeIDInLower(t: string)
    requires |t| == TREE_ID_LEN && Numerals.AllDigits(t, 16) && Numerals.ParseInt(t, 16).Some?
    ensures PadToTreeIDLen(HexTreeID(Numerals.ParseInt(t, 16).value)) == Ok(Numerals.Lower(t))
  {
    hide Numerals.Format, Numerals.Value, Numerals.Lower, Numerals.IsDigit;
    assert Numerals.IsDigit(t[0], 16);
    Numerals.DigitIsNoSign(t[0], 16);
    PaddedAgain(t);
    var s := HexTreeID(Numerals.ParseInt(t, 16).value);
    if |s| == TREE_ID_LEN {
      assert Zeros(0) + s == s;
    }
  }

  /** The digits of a received entry ID: its UUID and, if it has one that is not zero, its tree ID. */
  lemma ReceivedParts(request: string)
    requires Received(request) && GetUUIDFromIDString(request).Ok?
    ensures var uuid := GetUUIDFromIDString(request).value;
            && Hex.IsHex(uuid) && uuid == request[|request| - UUID_LEN..]
            && (TreeID(request).Ok? ==>
                  && |request| == ENTRY_ID_LEN && GetTreeIDFromIDString(request) == Ok(request[..TREE_ID_LEN])
                  && Numerals.ParseInt(request[..TREE_ID_LEN], 16) == Some(TreeID(request).value))
            && (|request| == ENTRY_ID_LEN && TreeID(request).Err? ==> TreeID(request).error != PLAIN_UUID)
  {
    hide Numerals.ParseInt, Numerals.IsDigit, Hex.DecodePrefix;
    UUIDIsHex(request);
    assert ZERO_TREE_ID[0] != PLAIN_UUID[0] && "invalid ID len"[0] != PLAIN_UUID[0];
    assert "could not convert treeID"[1] != PLAIN_UUID[1] && "not a valid hex string"[0] != PLAIN_UUID[0];
    if |request| == UUID_LEN {
      assert request[|request| - UUID_LEN..] == request;
    }
  }

  /** A received request is in the server's form exactly when it has no upper-case digit. */
  lemma ReceivedIsCanonicalIff(request: string)
    requires Received(request) && GetUUIDFromIDString(request).Ok?
    requires TreeID(request).Err? ==> TreeID(request).error == PLAIN_UUID
    ensures Canonical(request) <==> !Numerals.HasUpper(request)
  {
    hide GetUUIDFromIDString, TreeID, GetTreeIDFromIDString, PadToTreeIDLen, HexTreeID, Hex.Encode, Hex.DecodePrefix,
      Numerals.ParseInt, Numerals.IsDigit;
    ReceivedParts(request);
    var uuid := GetUUIDFromIDString(request).value;
    Hex.EncodeDecoded(uuid);
    Numerals.LowerIsSelf(request);
    if |request| == ENTRY_ID_LEN {
      var t := request[..TREE_ID_LEN];
      TreeIDInLower(t);
      assert request == t + uuid && Numerals.Lower(request) == Numerals.Lower(t) + Numerals.Lower(uuid);
    } else {
      assert uuid == request;
    }
  }

  /**
    Of all requests that get through, the client takes the entry the server finds for it exactly when the
    request has no upper-case digit.
   */
  lemma UpperCaseIsRefusedIff(st: Setting, backend: int -> Answers, request: string)
    requires Received(request) && Int64Trees(st.server.ranges) && Retrieved(st, backend, request).Found?
    ensures VerifyCommand.SameEntry(request, Retrieved(st, backend, request).id) <==> !Numerals.HasUpper(request)
  {
    hide GetUUIDFromIDString, TreeID, Received, Canonical, FromTree, Search, VerifyCommand.SameEntry;
    ClientAgreesIff(st, backend, request);
    ReceivedIsCanonicalIff(request);
  }

  // ----- The body that comes back -----

  /**
    The server never hashes the value of a leaf; the client's check does. The body of an entry found in a tree matches
    the ID it comes with exactly when it is not empty and hashes to the leaf hash asked for.
   */
  lemma BodyMatchesIff(st: Setting, backend: int -> Answers, uuid: string, tid: int)
    requires IsInt64(tid) && FromTree(st, backend, uuid, tid).Found?
    ensures Delivers(st, backend, uuid, tid, FromTree(st, backend, uuid, tid).id)
    ensures var (f, hash) := (FromTree(st, backend, uuid, tid), Hex.Decode(uuid).value);
            var value := ByHash(st, backend(tid), hash).leafAndProof.value.leaf.value.value;
            VerifyCommand.BodyMatchesUUID(st.server.env.sha, f.entry, f.id)
            <==> value != [] && HashLeaf(st.server.env.sha, value) == hash
  {
    hide Trillian.GetLeafAndProofByHash, Hex.Decode, Hex.Encode, EntryFrom, TreeID, GetTreeIDFromIDString,
      GetUUIDFromIDString, PadToTreeIDLen, Trillian.Proves, HashLeaf, Base64.Decode, Base64.Encode;
    FromTreeDelivers(st, backend, uuid, tid);
    var hash := Hex.Decode(uuid).value;
    var r := ByHash(st, backend(tid), hash).leafAndProof.value;
    EntryBody(st, tid, r.leaf.value, r);
    Base64.RoundTrip(r.leaf.value.value);
    Hex.RoundTrip(hash);
    Hex.RoundTrip(HashLeaf(st.server.env.sha, r.leaf.value.value));
  }

  lemma EntryBody(st: Setting, tid: int, leaf: Trillian.Leaf, r: Trillian.LeafAndProof)
    requires EntryFrom(st, tid, leaf, r).Found?
    ensures EntryFrom(st, tid, leaf, r).entry.body == BodyOfLeaf(leaf)
  {
    hide SignEntry, CheckpointText, CreateEntryIDFromParts, FirstRange, Hex.Encode, VirtualFrom, BodyOfLeaf;
  }

  /**
    So a body that passes the client's check is the entry of the log behind the root, at the proof's index, or a
    collision shows.
   */
  lemma MatchingBodyIsInTheLog(st: Setting, backend: int -> Answers, uuid: string, tid: int, log: seq<Bytes>)
    requires IsInt64(tid) && FromTree(st, backend, uuid, tid).Found?
    requires var f := FromTree(st, backend, uuid, tid); VerifyCommand.BodyMatchesUUID(st.server.env.sha, f.entry, f.id)
    requires Delivers(st, backend, uuid, tid, FromTree(st, backend, uuid, tid).id)
    requires Trillian.RootOf(st.TrillianEnv(),
                             ByHash(st, backend(tid), Hex.Decode(uuid).value).leafAndProof.value.signedRoot, log)
    ensures var r := ByHash(st, backend(tid), Hex.Decode(uuid).value).leafAndProof.value;
            var (i, value, hashes) := (Uint64(r.proof.leafIndex), r.leaf.value.value, r.proof.hashes);
            && i < |log| && |hashes| == |Sides(i, |log|)|
            && (|| value == log[i]
                || IsCollision(st.server.env.sha, Inclusion.ForgedPair(st.server.env.sha, i, log, value, hashes)))
  {
    hide FromTree, ByHash, Hex.Decode, VerifyCommand.BodyMatchesUUID, Trillian.Proves, Trillian.RootOf, Sides,
      IsCollision, Inclusion.ForgedPair, HashLeaf, TreeID, GetTreeIDFromIDString, GetUUIDFromIDString;
    BodyMatchesIff(st, backend, uuid, tid);
    var r := ByHash(st, backend(tid), Hex.Decode(uuid).value).leafAndProof.value;
    Trillian.ByHashIsInTheLog(st.TrillianEnv(), r.leaf.value.value, r, log);
  }

  // ----- An honest log server -----

  /** The answers about entry `m` of a log, at its current root. */
  ghost predicate HonestAnswers(st: Setting, a: Answers, log: seq<Bytes>, m: nat, p: Proven) {
    && a.client
    && EndToEnd.Honest(st.server.env.sha, log, m, p)
    && a.latest.err.None? && a.latest.resp.Some? && st.unmarshal(a.latest.resp.value) == Some(p.root)
    && a.proofs == Trillian.Rpc(Some([Some(Trillian.Proof(m, p.hashes))]), None)
    && a.leaves == Trillian.Rpc(Some([p.leaf]), None)
  }

  lemma HonestByHash(st: Setting, a: Answers, log: seq<Bytes>, m: nat, p: Proven)
    requires HonestAnswers(st, a, log, m, p)
    ensures var r := Trillian.LeafAndProof(Some(p.leaf), Trillian.Proof(m, p.hashes), a.latest.resp.value);
            ByHash(st, a, p.leaf.merkleLeafHash) == Trillian.Response(Trillian.OK, None, None, Some(r), None)
  {
    hide TreeHash, AuditPath, Trillian.GetLeafAndProofByHash, HashLeaf;
    Trillian.HonestByHash(st.TrillianEnv(), log, m, a.latest, Trillian.Proof(m, p.hashes), p.leaf);
  }

  /** The request names the tree, in whatever way, and its UUID is one of the spellings of the hash. */
  predicate AsksFor(request: string, tid: int, hash: Bytes) {
    && TreeID(request) == Ok(tid)
    && GetUUIDFromIDString(request).Ok? && Hex.Decode(GetUUIDFromIDString(request).value) == Some(hash)
  }

  /** An assembled entry is found again, as the very same entry, under every spelling of its ID. */
  lemma AssembledIsRetrieved(st: Setting, backend: int -> Answers, tid: int, log: seq<Bytes>, m: nat, p: Proven,
                             request: string)
    requires HonestAnswers(st, backend(tid), log, m, p)
    requires EntryOf(st.server, p, tid).Some? && AsksFor(request, tid, p.leaf.merkleLeafHash)
    ensures Retrieved(st, backend, request)
            == Found(EntryOf(st.server, p, tid).value.0, EntryOf(st.server, p, tid).value.1)
  {
    hide Hex.Decode, GetUUIDFromIDString, TreeID, Search, EntryOf, FromTree, HonestAnswers;
    HonestFromTree(st, backend, tid, log, m, p, GetUUIDFromIDString(request).value);
  }

  lemma {:induction false} SearchSkips(st: Setting, backend: int -> Answers, uuid: string, trees: seq<LogRange>, k: nat)
    requires k <= |trees| && forall i :: 0 <= i < k ==> FromTree(st, backend, uuid, trees[i].treeID).Missing?
    ensures Search(st, backend, uuid, trees) == Search(st, backend, uuid, trees[k..])
    decreases k
  {
    hide FromTree;
    if k > 0 {
      assert FromTree(st, backend, uuid, trees[0].treeID).Missing?;
      SearchSkips(st, backend, uuid, trees[1..], k - 1);
      assert trees[1..][k - 1..] == trees[k..];
    } else {
      assert trees[0..] == trees;
    }
  }

  /** Asked for by its plain UUID, in any letter case, it is found when every shard tried before its own misses it. */
  lemma PlainIsRetrieved(st: Setting, backend: int -> Answers, k: nat, log: seq<Bytes>, m: nat, p: Proven, uuid: string)
    requires k < |Trees(st.server.ranges)| && |uuid| == UUID_LEN && Hex.Decode(uuid) == Some(p.leaf.merkleLeafHash)
    requires HonestAnswers(st, backend(Trees(st.server.ranges)[k].treeID), log, m, p)
    requires EntryOf(st.server, p, Trees(st.server.ranges)[k].treeID).Some?
    requires forall i :: 0 <= i < k ==> FromTree(st, backend, uuid, Trees(st.server.ranges)[i].treeID).Missing?
    ensures var e := EntryOf(st.server, p, Trees(st.server.ranges)[k].treeID).value;
            Retrieved(st, backend, uuid) == Found(e.0, e.1)
  {
    var (trees, tid) := (Trees(st.server.ranges), Trees(st.server.ranges)[k].treeID);
    assert GetUUIDFromIDString(uuid) == Ok(uuid) && TreeID(uuid) == Err(PLAIN_UUID);
    hide GetUUIDFromIDString, TreeID, ByHash, EntryFrom, EntryOf, Hex.Decode, Trees;
    SearchSkips(st, backend, uuid, trees, k);
    HonestFromTree(st, backend, tid, log, m, p, uuid);
    assert trees[k..][0] == trees[k];
  }

  /** A shard misses the hash when its tree is not known, or when its server knows no such leaf. */
  predicate Misses(st: Setting, backend: int -> Answers, tid: int) {
    || RangeOf(st.server.ranges, tid).None?
    || (backend(tid).client && Trillian.HonestMiss(st.TrillianEnv(), backend(tid).latest, backend(tid).proofs))
  }

  lemma MissedInTree(st: Setting, backend: int -> Answers, uuid: string, tid: int)
    requires Hex.Decode(uuid).Some? && Misses(st, backend, tid)
    ensures FromTree(st, backend, uuid, tid) == Missing
  {
    hide Trillian.GetProofByHash, EntryFrom, FirstRange, Hex.Decode, Trillian.HonestMiss;
    if RangeOf(st.server.ranges, tid).Some? {
      var a := backend(tid);
      Trillian.MissIsNotFound(st.TrillianEnv(), Hex.Decode(uuid).value, a.latest, a.proofs);
    }
  }

  /**
    An entry is missing from a tree exactly when there is no such tree or its server says that it is not there: no
    failure of the server, of the client to it or of the signers passes for a missing entry.
   */
  lemma MissingIff(st: Setting, backend: int -> Answers, uuid: string, tid: int)
    ensures var (hash, a) := (Hex.Decode(uuid), backend(tid));
            FromTree(st, backend, uuid, tid) == Missing
            <==> || RangeOf(st.server.ranges, tid).None?
                 || (&& hash.Some? && a.client
                     && Trillian.SaysNotFound(st.TrillianEnv(), hash.value, a.latest, a.proofs, a.leaves))
  {
    hide Trillian.GetLeafAndProofByHash, FirstRange, Hex.Decode, Trillian.SaysNotFound, Trillian.HasLeaf, EntryOf;
    if Hex.Decode(uuid).Some? {
      var a := backend(tid);
      Trillian.ByHashIff(st.TrillianEnv(), Hex.Decode(uuid).value, a.latest, a.proofs, a.leaves);
    }
  }

  /** A request whose tree ID is zero is refused, although its UUID alone would be searched for in all shards. */
  lemma ZeroTreeIsRefused(st: Setting, backend: int -> Answers, uuid: string)
    requires |uuid| == UUID_LEN && Hex.IsHex(uuid)
    ensures Retrieved(st, backend, Zeros(TREE_ID_LEN) + uuid).Failed?
    ensures Retrieved(st, backend, uuid)
            == Search(st, backend, uuid, [st.server.ranges.active] + st.server.ranges.inactive)
  {
    ZeroTreeIDIsForgiven(uuid);
    assert GetUUIDFromIDString(uuid) == Ok(uuid) && TreeID(uuid) == Err(PLAIN_UUID);
    assert ZERO_TREE_ID[0] != PLAIN_UUID[0];
    hide GetUUIDFromIDString, TreeID, Search;
  }

  /** An entry of an honest log is found by its plain UUID in whichever shard it is, when the other servers miss it. */
  lemma FoundInAnyShard(st: Setting, backend: int -> Answers, k: nat, log: seq<Bytes>, m: nat, p: Proven, uuid: string)
    requires k < |Trees(st.server.ranges)| && |uuid| == UUID_LEN && Hex.Decode(uuid) == Some(p.leaf.merkleLeafHash)
    requires HonestAnswers(st, backend(Trees(st.server.ranges)[k].treeID), log, m, p)
    requires EntryOf(st.server, p, Trees(st.server.ranges)[k].treeID).Some?
    requires forall i :: 0 <= i < k ==> Misses(st, backend, Trees(st.server.ranges)[i].treeID)
    ensures var e := EntryOf(st.server, p, Trees(st.server.ranges)[k].treeID).value;
            Retrieved(st, backend, uuid) == Found(e.0, e.1)
  {
    hide *;
    forall i | 0 <= i < k
      ensures FromTree(st, backend, uuid, Trees(st.server.ranges)[i].treeID).Missing?
    {
      MissedInTree(st, backend, uuid, Trees(st.server.ranges)[i].treeID);
    }
    PlainIsRetrieved(st, backend, k, log, m, p, uuid);
  }

  /** What no shard has is missing, and so is what is asked for in a tree that the server does not know. */
  lemma MissedEverywhere(st: Setting, backend: int -> Answers, request: string)
    requires GetUUIDFromIDString(request).Ok? && Hex.Decode(GetUUIDFromIDString(request).value).Some?
    requires if TreeID(request).Ok? then Misses(st, backend, TreeID(request).value)
             else && TreeID(request).error == PLAIN_UUID
                  && forall i :: 0 <= i < |Trees(st.server.ranges)| ==>
                       Misses(st, backend, Trees(st.server.ranges)[i].treeID)
    ensures Retrieved(st, backend, request) == Missing
  {
    hide FromTree, GetUUIDFromIDString, TreeID, Misses, Hex.Decode, Trees;
    var (uuid, trees) := (GetUUIDFromIDString(request).value, Trees(st.server.ranges));
    if TreeID(request).Ok? {
      MissedInTree(st, backend, uuid, TreeID(request).value);
    } else {
      forall i | 0 <= i < |trees|
        ensures FromTree(st, backend, uuid, trees[i].treeID).Missing?
      {
        MissedInTree(st, backend, uuid, trees[i].treeID);
      }
      SearchSkips(st, backend, uuid, trees, |trees|);
    }
  }

  lemma HonestFromTree(st: Setting, backend: int -> Answers, tid: int, log: seq<Bytes>, m: nat, p: Proven, uuid: string)
    requires HonestAnswers(st, backend(tid), log, m, p) && EntryOf(st.server, p, tid).Some?
    requires Hex.Decode(uuid) == Some(p.leaf.merkleLeafHash)
    ensures FromTree(st, backend, uuid, tid)
            == Found(EntryOf(st.server, p, tid).value.0, EntryOf(st.server, p, tid).value.1)
  {
    hide Hex.Decode, ByHash, TreeHash, AuditPath, SignEntry, Assemble, CheckpointText, VirtualFrom, FirstRange,
      CreateEntryIDFromParts, Hex.Encode;
    HonestByHash(st, backend(tid), log, m, p);
  }

  /** Its own ID is one of them. */
  lemma OwnIDAsks(s: Server, p: Proven, tid: int)
    requires IsInt64(tid) && EntryOf(s, p, tid).Some?
    ensures AsksFor(EntryOf(s, p, tid).value.0, tid, p.leaf.merkleLeafHash)
  {
    hide TreeID, GetTreeIDFromIDString, GetUUIDFromIDString, CreateEntryIDFromParts, PadToTreeIDLen, Hex.Encode,
      Hex.Decode, SignEntry, Assemble, CheckpointText, VirtualFrom, FirstRange;
    EntryIDRoundTrip(tid, Hex.Encode(p.leaf.merkleLeafHash));
    Hex.RoundTrip(p.leaf.merkleLeafHash);
  }

  /** Sixteen characters that parse as the tree ID, before digits that decode to the hash. */
  lemma JoinedAsks(padded: string, tid: int, uuid: string, hash: Bytes)
    requires |padded| == TREE_ID_LEN && Numerals.ParseInt(padded, 16) == Some(tid) && tid != 0
    requires |uuid| == UUID_LEN && Hex.Decode(uuid) == Some(hash)
    ensures AsksFor(padded + uuid, tid, hash)
  {
    hide Numerals.ParseInt, Hex.IsHex, Hex.DecodePrefix, ValidateUUID, ValidateTreeID;
    ValidateJoined(padded, uuid);
  }

  /** A positive tree ID in any letter case parses as itself. */
  lemma AnyCaseParses(t: string, tid: int)
    requires 0 < tid < TWO_63 && |t| == TREE_ID_LEN && PadToTreeIDLen(HexTreeID(tid)) == Ok(Numerals.Lower(t))
    ensures Numerals.AllDigits(t, 16) && Numerals.ParseInt(t, 16) == Some(tid)
  {
    hide Numerals.Value, Numerals.Lower, Numerals.LowerChar, Numerals.Format;
    var (s, zeros) := (HexTreeID(tid), Zeros(TREE_ID_LEN - |HexTreeID(tid)|));
    Numerals.FormatRoundTrip(tid, 16);
    Numerals.LeadingZeros(zeros, s, 16);
    assert Numerals.Lower(t) == zeros + s;
    Numerals.LowerDigits(t);
    Numerals.LowerValue(t);
    assert Numerals.IsDigit(t[0], 16);
    Numerals.DigitIsNoSign(t[0], 16);
  }

  /** The ID an entry gets: its padded tree ID before its leaf hash. */
  lemma OwnIDIs(s: Server, p: Proven, tid: int)
    requires IsInt64(tid) && EntryOf(s, p, tid).Some?
    ensures var (id, padded) := (EntryOf(s, p, tid).value.0, PadToTreeIDLen(HexTreeID(tid)));
            && padded.Ok? && |padded.value| == TREE_ID_LEN && id == padded.value + Hex.Encode(p.leaf.merkleLeafHash)
            && |Hex.Encode(p.leaf.merkleLeafHash)| == UUID_LEN
  {
    hide ValidateEntryID, Hex.Encode, SignEntry, Assemble, CheckpointText, VirtualFrom, FirstRange, HexTreeID;
  }

  /**
    Every spelling in digits of either case of the ID of an entry of an honest log is found by the server as
    that very entry, and the client takes it exactly when the spelling has no upper-case digit.
   */
  lemma AnyCaseIsFound(st: Setting, backend: int -> Answers, tid: int, log: seq<Bytes>, m: nat, p: Proven,
                       request: string)
    requires Int64Trees(st.server.ranges) && 0 < tid < TWO_63
    requires HonestAnswers(st, backend(tid), log, m, p) && EntryOf(st.server, p, tid).Some?
    requires Numerals.Lower(request) == EntryOf(st.server, p, tid).value.0
    ensures Received(request)
    ensures Retrieved(st, backend, request)
            == Found(EntryOf(st.server, p, tid).value.0, EntryOf(st.server, p, tid).value.1)
    ensures VerifyCommand.SameEntry(request, Retrieved(st, backend, request).id) <==> !Numerals.HasUpper(request)
  {
    hide Hex.Encode, Hex.DecodePrefix, HexTreeID, EntryOf, Retrieved, VerifyCommand.SameEntry, AsksFor, PadToTreeIDLen,
      Numerals.LowerChar, Numerals.ParseInt, Numerals.IsDigit, HonestAnswers;
    var hash := p.leaf.merkleLeafHash;
    OwnIDIs(st.server, p, tid);
    var (t, uuid) := (request[..TREE_ID_LEN], request[TREE_ID_LEN..]);
    var (padded, encoded) := (PadToTreeIDLen(HexTreeID(tid)).value, Hex.Encode(hash));
    assert |request| == |Numerals.Lower(request)| && request == t + uuid;
    assert Numerals.Lower(t) == Numerals.Lower(request)[..TREE_ID_LEN] == (padded + encoded)[..TREE_ID_LEN] == padded;
    assert Numerals.Lower(uuid) == Numerals.Lower(request)[TREE_ID_LEN..] == (padded + encoded)[TREE_ID_LEN..]
           == encoded;
    AnyCaseParses(t, tid);
    Hex.RoundTrip(hash);
    Hex.LowerDecodes(uuid);
    JoinedAsks(t, tid, uuid, hash);
    AssembledIsRetrieved(st, backend, tid, log, m, p, request);
    UpperCaseIsRefusedIff(st, backend, request);
  }

  /** So an ID with a letter among its digits, typed in upper case, is found and then refused. */
  lemma UpperIDIsFoundAndRefused(st: Setting, backend: int -> Answers, tid: int, log: seq<Bytes>, m: nat, p: Proven)
    requires Int64Trees(st.server.ranges) && 0 < tid < TWO_63
    requires HonestAnswers(st, backend(tid), log, m, p) && EntryOf(st.server, p, tid).Some?
    requires Numerals.HasLower(EntryOf(st.server, p, tid).value.0)
    ensures var request := Numerals.Upper(EntryOf(st.server, p, tid).value.0);
            && Received(request)
            && Retrieved(st, backend, request)
               == Found(EntryOf(st.server, p, tid).value.0, EntryOf(st.server, p, tid).value.1)
            && !VerifyCommand.SameEntry(request, Retrieved(st, backend, request).id)
  {
    hide EntryOf, Retrieved, VerifyCommand.SameEntry, HonestAnswers, Received;
    var id := EntryOf(st.server, p, tid).value.0;
    OwnIDIsLower(st.server, p, tid);
    Numerals.LowerOfUpper(id);
    AnyCaseIsFound(st, backend, tid, log, m, p, Numerals.Upper(id));
  }

  lemma OwnIDIsLower(s: Server, p: Proven, tid: int)
    requires 0 < tid < TWO_63 && EntryOf(s, p, tid).Some?
    ensures !Numerals.HasUpper(EntryOf(s, p, tid).value.0)
  {
    hide EntryOf, Hex.Encode, Hex.DecodePrefix, Numerals.HasUpper, Numerals.Lower, PadToTreeIDLen, HexTreeID;
    var (padded, hash) := (PadToTreeIDLen(HexTreeID(tid)), p.leaf.merkleLeafHash);
    OwnIDIs(s, p, tid);
    Hex.RoundTrip(hash);
    Hex.EncodeDecoded(Hex.Encode(hash));
    Numerals.LowerIsSelf(Hex.Encode(hash));
    PaddedIsLower(tid);
    Numerals.NoUpperInBoth(padded.value, Hex.Encode(hash));
  }

  lemma PaddedIsLower(tid: int)
    requires 0 < tid < TWO_63
    ensures PadToTreeIDLen(HexTreeID(tid)).Ok? && !Numerals.HasUpper(PadToTreeIDLen(HexTreeID(tid)).value)
  {
    hide Numerals.Format, Numerals.Value, Numerals.Lower, Numerals.AllDigits, Numerals.ParseInt;
    var s := HexTreeID(tid);
    PositiveTreeIDParses(tid);
    Numerals.FormatRoundTrip(tid, 16);
    PaddedAgain(s);
    assert Zeros(0) + s == s;
    Numerals.LowerIsSelf(s);
    Numerals.NoUpperInBoth(Zeros(TREE_ID_LEN - |s|), s);
    assert |s| == TREE_ID_LEN ==> Zeros(TREE_ID_LEN - |s|) + s == s;
  }

  /**
    Asked for by its ID, the entry of a leaf of an honest log, with a cached or a fresh checkpoint, passes the whole of
    `rekor-cli verify` if and only if the leaf is not empty and the checkpoint commits to the proof's root.
   */
  lemma RetrievedEntryVerifies(st: Setting, backend: int -> Answers, tid: int, log: seq<Bytes>, m: nat, p: Proven,
                               cp: LogRoot, cpSigners: seq<Signer>, keys: int -> Option<Key>)
    requires st.server.env.Lawful() && IsInt64(tid) && keys(tid) == EndToEnd.PrimaryKey(st.server, tid)
    requires HonestAnswers(st, backend(tid), log, m, p) && EntryOf(st.server, p, tid).Some?
    requires EndToEnd.EntryCheckpointFor(st.server, p.root, tid, cp, cpSigners)
    ensures var id := EntryOf(st.server, p, tid).value.0;
            var r := Retrieved(st, backend, id);
            && r.Found? && r.entry.verification.Some? && r.entry.verification.value.inclusionProof.Some?
            && (VerifyCommand.Run(st.server.env, Some(id), Some(log[m]), keys, r.id, r.entry).Ok?
                <==> log[m] != [] && st.server.env.equalFold(p.root.hash, cp.hash))
  {
    hide Retrieved, EntryOf, VerifyCommand.Run, EndToEnd.EntryCheckpointFor, EndToEnd.Honest, EndToEnd.PrimaryKey,
      AsksFor;
    OwnIDAsks(st.server, p, tid);
    AssembledIsRetrieved(st, backend, tid, log, m, p, EntryOf(st.server, p, tid).value.0);
    VerifyCommand.AssembledPassesIff(st.server, log, m, p, tid, cp, cpSigners, keys);
  }

  /**
    For an inactive shard of a server after start-up: when the leaf is not empty and the root read then still
    matches.
   */
  lemma InactiveEntryVerifies(st: Setting, backend: int -> Answers, inactive: seq<LogRange>,
                              latest: int -> Option<LogRoot>, i: nat, log: seq<Bytes>, m: nat, p: Proven,
                              keys: int -> Option<Key>)
    requires st.server.env.Lawful() && EndToEnd.StartedUp(st.server, inactive, latest) && i < |inactive|
             && IsInt64(inactive[i].treeID)
    requires keys(inactive[i].treeID) == EndToEnd.PrimaryKey(st.server, inactive[i].treeID)
    requires HonestAnswers(st, backend(inactive[i].treeID), log, m, p)
             && EntryOf(st.server, p, inactive[i].treeID).Some?
    requires var (tid, read) := (inactive[i].treeID, latest(inactive[i].treeID).value);
             var n := NoteFor(st.server.env.scheme, st.server.hostname, tid, read, inactive[i].signers);
             n.Some? ==> EndToEnd.Prints(st.server.hostname, n.value)
    ensures var id := EntryOf(st.server, p, inactive[i].treeID).value.0;
            var r := Retrieved(st, backend, id);
            && r.Found? && r.entry.verification.Some? && r.entry.verification.value.inclusionProof.Some?
            && (VerifyCommand.Run(st.server.env, Some(id), Some(log[m]), keys, r.id, r.entry).Ok?
                <==> log[m] != [] && st.server.env.equalFold(p.root.hash, latest(inactive[i].treeID).value.hash))
  {
    hide Retrieved, EntryOf, VerifyCommand.Run, EndToEnd.EntryCheckpointFor, EndToEnd.Honest, EndToEnd.PrimaryKey,
      NoteFor, FirstRange, StartupCache, EndToEnd.Prints;
    var (tid, read) := (inactive[i].treeID, latest(inactive[i].treeID).value);
    EndToEnd.EntryHasSigners(st.server, p, tid);
    EndToEnd.RangeOfInactive(st.server.ranges, i);
    EndToEnd.CachedCheckpointIsFor(st.server, inactive, latest, i, p.root);
    RetrievedEntryVerifies(st, backend, tid, log, m, p, read, inactive[i].signers, keys);
  }

  // ----- By index -----

  function ByIndex(st: Setting, a: Answers, leafIndex: int): Option<Trillian.Response> {
    Trillian.GetLeafAndProofByIndex(st.TrillianEnv(), leafIndex, a.latest, a.byIndex)
  }

  function ResultByIndex(st: Setting, a: Answers, leafIndex: int): Option<Trillian.LeafAndProof> {
    if ByIndex(st, a, leafIndex).None? then None else ByIndex(st, a, leafIndex).value.leafAndProof
  }

  /** `retrieveLogEntryByIndex`. */
  function RetrievedByIndex(st: Setting, backend: int -> Answers, index: int): Outcome {
    var (tid, leafIndex) := ResolveVirtualIndex(st.server.ranges, index);
    var a := backend(tid);
    if !a.client then Failed("getting log client")
    else
      var (r, result) := (ByIndex(st, a, leafIndex), ResultByIndex(st, a, leafIndex));
      if r.None? then NoResult
      else if r.value.status in {Trillian.NotFound, Trillian.OutOfRange, Trillian.InvalidArgument} then Missing
      else if r.value.status != Trillian.OK then Failed("grpc error")
      else if result.None? then NoResult
      else if result.value.leaf.None? then Missing
      else EntryFrom(st, tid, result.value.leaf.value, result.value)
  }

  /** Leaves of one tree have different virtual indexes, even around the wrap of int64. */
  lemma {:induction false} VirtualIsInjective(offset: int, inactive: seq<LogRange>, activeID: int, leaf: int,
                                              leaf': int, tid: int)
    requires IsInt64(leaf) && IsInt64(leaf')
    requires VirtualFrom(offset, inactive, activeID, leaf, tid) == VirtualFrom(offset, inactive, activeID, leaf', tid)
    requires tid == activeID || exists i :: 0 <= i < |inactive| && inactive[i].treeID == tid
    ensures leaf == leaf'
    decreases |inactive|
  {
    if inactive != [] && inactive[0].treeID != tid {
      if tid != activeID {
        var i :| 0 <= i < |inactive| && inactive[i].treeID == tid;
        assert inactive[1..][i - 1] == inactive[i];
      }
      VirtualIsInjective(Int64(offset + inactive[0].treeLength), inactive[1..], activeID, leaf, leaf', tid);
    } else {
      SumIsInjective(offset, leaf, leaf');
    }
  }

  lemma SumIsInjective(a: int, x: int, y: int)
    requires IsInt64(x) && IsInt64(y) && Int64(a + x) == Int64(a + y)
    ensures x == y
  {
    WrapOnce(a + x, -a);
    WrapOnce(a + y, -a);
  }

  lemma ByIndexIsProved(st: Setting, a: Answers, leafIndex: int)
    requires ResultByIndex(st, a, leafIndex).Some?
    ensures var r := ResultByIndex(st, a, leafIndex).value;
            && r.leaf.Some? && st.unmarshal(r.signedRoot).Some?
            && var root := st.unmarshal(r.signedRoot).value;
               Inclusion.Accepts(st.server.env.sha, Uint64(leafIndex), root.size, r.leaf.value.merkleLeafHash,
                                 r.proof.hashes, root.hash)
  {
    hide Sides, Climb;
  }

  lemma EntryIndex(st: Setting, tid: int, leaf: Trillian.Leaf, r: Trillian.LeafAndProof)
    requires EntryFrom(st, tid, leaf, r).Found?
    ensures EntryFrom(st, tid, leaf, r).entry.logIndex == VirtualLogIndex(leaf.leafIndex, tid, st.server.ranges)
  {
    hide SignEntry, FreshCheckpoint, CreateEntryIDFromParts, FirstRange, Hex.Encode, VirtualFrom;
  }

  lemma LeafIsInAShard(r: Ranges, tid: int, leaf: int)
    requires IsLeaf(r, tid, leaf)
    ensures tid == r.active.treeID || exists i :: 0 <= i < |r.inactive| && r.inactive[i].treeID == tid
  {}

  /**
    An entry that comes back for an index was proved at the leaf the index resolves to, and it carries
    that index exactly when the server labelled the leaf with the position it was proved at.
   */
  lemma ByIndexIsRequestedIff(st: Setting, backend: int -> Answers, index: int)
    requires Sane(st.server.ranges) && 0 <= index < TWO_63
    requires RetrievedByIndex(st, backend, index).Found?
    requires var (tid, leafIndex) := ResolveVirtualIndex(st.server.ranges, index);
             var r := ResultByIndex(st, backend(tid), leafIndex);
             r.Some? && r.value.leaf.Some? ==> IsInt64(r.value.leaf.value.leafIndex)
    ensures var (tid, leafIndex) := ResolveVirtualIndex(st.server.ranges, index);
            var r := ResultByIndex(st, backend(tid), leafIndex);
            && r.Some? && r.value.leaf.Some? && st.unmarshal(r.value.signedRoot).Some?
            && var (leaf, root) := (r.value.leaf.value, st.unmarshal(r.value.signedRoot).value);
               && 0 <= leafIndex
               && Inclusion.Accepts(st.server.env.sha, Uint64(leafIndex), root.size, leaf.merkleLeafHash,
                                    r.value.proof.hashes, root.hash)
               && (RetrievedByIndex(st, backend, index).entry.logIndex == index <==> leaf.leafIndex == leafIndex)
  {
    hide *;
    var (tid, leafIndex) := ResolveVirtualIndex(st.server.ranges, index);
    FoundByIndex(st, backend, index);
    ByIndexIsProved(st, backend(tid), leafIndex);
    var r := ResultByIndex(st, backend(tid), leafIndex).value;
    ResolvedInRange(st.server.ranges, index);
    EntryIndex(st, tid, r.leaf.value, r);
    IndexOnlyOnce(st.server.ranges, index, r.leaf.value.leafIndex);
  }

  lemma FoundByIndex(st: Setting, backend: int -> Answers, index: int)
    requires RetrievedByIndex(st, backend, index).Found?
    ensures var (tid, leafIndex) := ResolveVirtualIndex(st.server.ranges, index);
            var r := ResultByIndex(st, backend(tid), leafIndex);
            && r.Some? && r.value.leaf.Some?
            && RetrievedByIndex(st, backend, index) == EntryFrom(st, tid, r.value.leaf.value, r.value)
  {
    hide Resolve, ByIndex, ResultByIndex, EntryFrom;
  }

  lemma IndexOnlyOnce(r: Ranges, index: int, leaf: int)
    requires Sane(r) && 0 <= index < TWO_63 && IsInt64(leaf)
    ensures var (tid, leafIndex) := ResolveVirtualIndex(r, index);
            VirtualLogIndex(leaf, tid, r) == index <==> leaf == leafIndex
  {
    hide Total, Resolve, VirtualFrom, IsLeaf, Sane;
    var (tid, leafIndex) := ResolveVirtualIndex(r, index);
    IndexesAreBijective(r, index);
    LeafIsInAShard(r, tid, leafIndex);
    ResolvedInRange(r, index);
    if VirtualLogIndex(leaf, tid, r) == index {
      VirtualIsInjective(0, r.inactive, r.active.treeID, leaf, leafIndex, tid);
    }
  }

  lemma ResolvedInRange(r: Ranges, index: int)
    requires Sane(r) && 0 <= index < TWO_63
    ensures 0 <= ResolveVirtualIndex(r, index).1 < TWO_63
    ensures Uint64(ResolveVirtualIndex(r, index).1) == ResolveVirtualIndex(r, index).1
  {
    ResolvedAtMost(r.inactive, r.active.treeID, index);
  }

  lemma {:induction false} ResolvedAtMost(inactive: seq<LogRange>, activeID: int, index: int)
    requires NonNegative(inactive) && 0 <= index < TWO_63
    ensures 0 <= Resolve(inactive, activeID, index).1 <= index
    decreases |inactive|
  {
    if inactive != [] && index >= inactive[0].treeLength {
      ResolvedAtMost(inactive[1..], activeID, index - inactive[0].treeLength);
    }
  }

  /**
    The answers the code has no branch for, once a root decodes: success without a proof, and a proof
    without a leaf, with or without an error.
   */
  lemma ByIndexNoResultIff(st: Setting, backend: int -> Answers, index: int)
    ensures var a := backend(ResolveVirtualIndex(st.server.ranges, index).0);
            var proof := a.byIndex.resp.Some? && a.byIndex.resp.value.0.Some?;
            RetrievedByIndex(st, backend, index) == NoResult
            <==> && a.client && a.latest.err.None? && a.latest.resp.Some? && st.unmarshal(a.latest.resp.value).Some?
                 && (if proof then a.byIndex.resp.value.1.None? else a.byIndex.err.None?)
  {
    hide Inclusion.Accepts, Resolve, EntryOf;
  }

  /** The answer about entry `m` of a log when it is asked for by its index. */
  predicate HonestAtIndex(st: Setting, a: Answers, log: seq<Bytes>, m: nat, p: Proven) {
    && a.client
    && EndToEnd.Honest(st.server.env.sha, log, m, p)
    && a.latest.err.None? && a.latest.resp.Some? && st.unmarshal(a.latest.resp.value) == Some(p.root)
    && a.byIndex == Trillian.Rpc(Some((Some(Trillian.Proof(m, p.hashes)), Some(p.leaf))), None)
  }

  lemma HonestByIndex(st: Setting, a: Answers, log: seq<Bytes>, m: nat, p: Proven)
    requires HonestAtIndex(st, a, log, m, p)
    ensures var r := Trillian.LeafAndProof(Some(p.leaf), Trillian.Proof(m, p.hashes), a.latest.resp.value);
            ByIndex(st, a, m) == Some(Trillian.Response(Trillian.OK, None, None, Some(r), None))
  {
    hide TreeHash, AuditPath, Trillian.GetLeafAndProofByIndex, HashLeaf;
    Trillian.HonestByIndex(st.TrillianEnv(), log, m, a.latest, Trillian.Proof(m, p.hashes), p.leaf);
  }

  /** The entry of an honest log is found at its index, as the very entry that its ID finds, and carries that index. */
  lemma AssembledIsAtItsIndex(st: Setting, backend: int -> Answers, index: int, tid: int, log: seq<Bytes>, m: nat,
                              p: Proven)
    requires Sane(st.server.ranges) && 0 <= index < TWO_63 && ResolveVirtualIndex(st.server.ranges, index) == (tid, m)
    requires HonestAtIndex(st, backend(tid), log, m, p) && EntryOf(st.server, p, tid).Some?
    ensures var e := EntryOf(st.server, p, tid).value;
            RetrievedByIndex(st, backend, index) == Found(e.0, e.1) && e.1.logIndex == index
  {
    hide Resolve, EntryOf, ByIndex, TreeHash, AuditPath, HashLeaf, VirtualFrom, Sane, IsLeaf, Total;
    HonestByIndex(st, backend(tid), log, m, p);
    var r := Trillian.LeafAndProof(Some(p.leaf), Trillian.Proof(m, p.hashes), backend(tid).latest.resp.value);
    assert p == Proven(p.leaf, p.root, m, p.hashes);
    EntryIndex(st, tid, p.leaf, r);
    IndexesAreBijective(st.server.ranges, index);
  }

  /** An entry that is there but cannot be signed is a failure. */
  lemma UnsignedIsAFailure(st: Setting, backend: int -> Answers, index: int, tid: int, log: seq<Bytes>, m: nat,
                           p: Proven)
    requires ResolveVirtualIndex(st.server.ranges, index) == (tid, m)
    requires HonestAtIndex(st, backend(tid), log, m, p) && EntryOf(st.server, p, tid).None?
    ensures RetrievedByIndex(st, backend, index).Failed?
  {
    hide Resolve, EntryOf, ByIndex, TreeHash, AuditPath, HashLeaf;
    HonestByIndex(st, backend(tid), log, m, p);
    assert p == Proven(p.leaf, p.root, m, p.hashes);
  }

  /** An index beyond the log is missing, by any of the three codes servers use for it; other errors are failures. */
  lemma RefusedByIndex(st: Setting, backend: int -> Answers, index: int, code: Trillian.ErrorCode)
    requires var a := backend(ResolveVirtualIndex(st.server.ranges, index).0);
             && a.client && a.latest.err.None? && a.latest.resp.Some? && st.unmarshal(a.latest.resp.value).Some?
             && a.byIndex == Trillian.Rpc(None, Some(Trillian.StatusError(code)))
    ensures var r := RetrievedByIndex(st, backend, index);
            if code == Trillian.NotFound || code == Trillian.OutOfRange || code == Trillian.InvalidArgument then
              r == Missing
            else r.Failed?
  {
    hide Resolve, EntryFrom, Inclusion.Accepts;
  }
}
