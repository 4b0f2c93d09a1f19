/**
  The Trillian client (pkg/trillianclient/trillian_client.go) against a log server that may
  answer anything. Answers are parameters; proofs are checked by the inclusion verifier.
 */
module TrillianClients {
  import opened Basics
  import opened Merkle
  import opened Sharding
  import Inclusion

  datatype Code =
    OK | Unknown | InvalidArgument | DeadlineExceeded | NotFound | FailedPrecondition | OutOfRange | OtherCode

  type ErrorCode = c: Code | c != OK witness Unknown

  /** An error with a gRPC status, or any other error. */
  datatype Error = StatusError(code: ErrorCode) | PlainError(message: string)

  /** `status.Code`. */
  function CodeOf(err: Option<Error>): Code {
    match err
    case None => OK
    case Some(StatusError(c)) => c
    case Some(PlainError(_)) => Unknown
  }

  /** The answer to a remote call; without an error there is a response. */
  datatype Rpc<T> = Rpc(resp: Option<T>, err: Option<Error>)

  predicate Sound<T>(r: Rpc<T>) { r.err.None? ==> r.resp.Some? }

  datatype Proof = Proof(leafIndex: int, hashes: seq<Bytes>)

  datatype Leaf = Leaf(value: Bytes, merkleLeafHash: Bytes, leafIndex: int, integrateTime: int)

  datatype LeafAndProof = LeafAndProof(leaf: Option<Leaf>, proof: Proof, signedRoot: Bytes)

  datatype ProofResult = ProofResult(proofs: seq<Option<Proof>>, signedRoot: Bytes)

  datatype QueuedLeaf = QueuedLeaf(leaf: Leaf, status: Option<Code>)

  datatype Response = Response(
    status: Code,
    err: Option<Error>,
    addResult: Option<QueuedLeaf>,
    leafAndProof: Option<LeafAndProof>,
    proofResult: Option<ProofResult>)

  /** How a signed root is decoded, and the hash. */
  datatype Env = Env(sha: Sha, unmarshal: Bytes -> Option<LogRoot>)

  function Failure(err: Error): Response { Response(CodeOf(Some(err)), Some(err), None, None, None) }

  /** The proof is for `hash` and verifies against `root`. */
  predicate Proves(env: Env, hash: Bytes, p: Proof, root: LogRoot) {
    Inclusion.Accepts(env.sha, Uint64(p.leafIndex), root.size, hash, p.hashes, root.hash)
  }

  // ----- Lookups -----

  function GetProofByHash(env: Env, hash: Bytes, latest: Rpc<Bytes>, answer: Rpc<seq<Option<Proof>>>): Response {
    if latest.err.Some? then Failure(latest.err.value)
    else if latest.resp.None? then Failure(PlainError("nil response"))
    else
      var root := env.unmarshal(latest.resp.value);
      if root.None? then Failure(PlainError("unmarshalling log root"))
      else if root.value.size == 0 then Failure(StatusError(NotFound))
      else if answer.resp.None? then Response(CodeOf(answer.err), answer.err, None, None, None)
      else if !AllProve(env, hash, answer.resp.value, root.value) then
        Failure(PlainError("proof verification"))
      else
        Response(CodeOf(answer.err), answer.err, None, None, Some(ProofResult(answer.resp.value, latest.resp.value)))
  }

  predicate AllProve(env: Env, hash: Bytes, proofs: seq<Option<Proof>>, root: LogRoot) {
    forall i :: 0 <= i < |proofs| ==> ProvesOption(env, hash, proofs[i], root)
  }

  predicate ProvesOption(env: Env, hash: Bytes, p: Option<Proof>, root: LogRoot) {
    p.Some? && Proves(env, hash, p.value, root)
  }

  function GetStandaloneLeaf(hash: Bytes, proof: Proof, signedRoot: Bytes, answer: Rpc<seq<Leaf>>): Response {
    if answer.err.Some? then Failure(answer.err.value)
    else if answer.resp.None? || |answer.resp.value| == 0 then
      Response(NotFound, Some(PlainError("no leaf returned for index")), None, None, None)
    else if |answer.resp.value| != 1 then
      Response(FailedPrecondition, Some(PlainError("multiple leaves returned for index")), None, None, None)
    else
      var leaf := answer.resp.value[0];
      if leaf.merkleLeafHash != hash then Failure(PlainError("leaf hash mismatch"))
      else Response(OK, None, None, Some(LeafAndProof(Some(leaf), proof, signedRoot)), None)
  }

  /** The rest of a by-hash lookup once the proof response is there. */
  function LeafForProof(hash: Bytes, proofResp: Response, leaves: Rpc<seq<Leaf>>): Response {
    if proofResp.err.Some? then Failure(proofResp.err.value)
    else if proofResp.proofResult.None? then Failure(PlainError("nil proof result"))
    else
      var proofs := proofResp.proofResult.value.proofs;
      if |proofs| != 1 || proofs[0].None? then Failure(PlainError("expected 1 proof"))
      else
        var r := GetStandaloneLeaf(hash, proofs[0].value, proofResp.proofResult.value.signedRoot, leaves);
        if r.err.Some? then Failure(r.err.value) else r
  }

  function GetLeafAndProofByHash(env: Env, hash: Bytes, latest: Rpc<Bytes>, proofs: Rpc<seq<Option<Proof>>>,
                                 leaves: Rpc<seq<Leaf>>): Response {
    LeafForProof(hash, GetProofByHash(env, hash, latest, proofs), leaves)
  }

  /** None when the code reads the hash of a leaf that is not there: a proof came without one. */
  function GetLeafAndProofByIndex(env: Env, index: int, latest: Rpc<Bytes>,
                                  answer: Rpc<(Option<Proof>, Option<Leaf>)>): Option<Response> {
    if latest.err.Some? then Some(Failure(latest.err.value))
    else if latest.resp.None? then Some(Failure(PlainError("nil response")))
    else
      var root := env.unmarshal(latest.resp.value);
      if root.None? then Some(Failure(PlainError("unmarshalling log root")))
      else if answer.resp.None? || answer.resp.value.0.None? then
        Some(Response(CodeOf(answer.err), answer.err, None, None, None))
      else if answer.resp.value.1.None? then None
      else
        var (proof, leaf, signed) := (answer.resp.value.0.value, answer.resp.value.1.value, latest.resp.value);
        var (size, hash) := (root.value.size, root.value.hash);
        if !Inclusion.Accepts(env.sha, Uint64(index), size, leaf.merkleLeafHash, proof.hashes, hash) then
          Some(Failure(PlainError("proof verification")))
        else
          Some(Response(CodeOf(answer.err), answer.err, None, Some(LeafAndProof(Some(leaf), proof, signed)), None))
  }

  /** A result to trust: the leaf carries the hash, and the proof verifies for it against the very root returned. */
  predicate Trustworthy(env: Env, hash: Bytes, r: LeafAndProof) {
    && r.leaf.Some? && r.leaf.value.merkleLeafHash == hash
    && env.unmarshal(r.signedRoot).Some?
    && Proves(env, hash, r.proof, env.unmarshal(r.signedRoot).value)
  }

  /** All proofs of a response verified against the root it carries. */
  predicate Verified(env: Env, hash: Bytes, r: Response) {
    r.proofResult.Some? ==>
      && env.unmarshal(r.proofResult.value.signedRoot).Some?
      && forall i :: 0 <= i < |r.proofResult.value.proofs| ==>
           ProvesOption(env, hash, r.proofResult.value.proofs[i], env.unmarshal(r.proofResult.value.signedRoot).value)
  }

  /** A proof response without an error holds only proofs that verified against the root it returns. */
  lemma ProofResultVerified(env: Env, hash: Bytes, latest: Rpc<Bytes>, proofs: Rpc<seq<Option<Proof>>>)
    ensures Verified(env, hash, GetProofByHash(env, hash, latest, proofs))
  {
  }

  lemma LeafForProofTrustworthy(env: Env, hash: Bytes, proofResp: Response, leaves: Rpc<seq<Leaf>>)
    requires Verified(env, hash, proofResp)
    ensures var r := LeafForProof(hash, proofResp, leaves);
            && r.status == CodeOf(r.err) && (r.leafAndProof.Some? <==> r.err.None?)
            && (r.leafAndProof.Some? ==> r.status == OK && Trustworthy(env, hash, r.leafAndProof.value))
  {
    if proofResp.err.None? && proofResp.proofResult.Some? && |proofResp.proofResult.value.proofs| == 1 {
      assert ProvesOption(env, hash, proofResp.proofResult.value.proofs[0],
                          env.unmarshal(proofResp.proofResult.value.signedRoot).value);
    }
  }

  /** Whatever the server answers, a by-hash result is trustworthy, and only an error comes without one. */
  lemma ByHashIsTrustworthy(env: Env, hash: Bytes, latest: Rpc<Bytes>, proofs: Rpc<seq<Option<Proof>>>,
                            leaves: Rpc<seq<Leaf>>)
    ensures var r := GetLeafAndProofByHash(env, hash, latest, proofs, leaves);
            && (r.leafAndProof.Some? <==> r.err.None?)
            && (r.leafAndProof.Some? ==> r.status == OK && Trustworthy(env, hash, r.leafAndProof.value))
  {
    ProofResultVerified(env, hash, latest, proofs);
    LeafForProofTrustworthy(env, hash, GetProofByHash(env, hash, latest, proofs), leaves);
  }

  /** The answer to a lookup by hash that there is such a leaf: one proof, which verifies, and one leaf of that hash. */
  predicate HasLeaf(env: Env, hash: Bytes, latest: Rpc<Bytes>, proofs: Rpc<seq<Option<Proof>>>,
                    leaves: Rpc<seq<Leaf>>) {
    && HasProof(env, hash, latest, proofs)
    && leaves.err.None? && leaves.resp.Some? && |leaves.resp.value| == 1
    && leaves.resp.value[0].merkleLeafHash == hash
  }

  predicate HasProof(env: Env, hash: Bytes, latest: Rpc<Bytes>, proofs: Rpc<seq<Option<Proof>>>) {
    && HasRoot(env, latest) && proofs.err.None? && proofs.resp.Some?
    && |proofs.resp.value| == 1 && proofs.resp.value[0].Some?
    && var root := env.unmarshal(latest.resp.value).value;
       0 < root.size && Proves(env, hash, proofs.resp.value[0].value, root)
  }

  predicate HasRoot(env: Env, latest: Rpc<Bytes>) {
    latest.err.None? && latest.resp.Some? && env.unmarshal(latest.resp.value).Some?
  }

  /** The server, not the client, says that there is none: by an empty tree, or by the code of one of its errors. */
  predicate SaysNotFound(env: Env, hash: Bytes, latest: Rpc<Bytes>, proofs: Rpc<seq<Option<Proof>>>,
                         leaves: Rpc<seq<Leaf>>) {
    var notFound := Some(StatusError(NotFound));
    || latest.err == notFound
    || (&& HasRoot(env, latest)
        && var root := env.unmarshal(latest.resp.value).value;
           || root.size == 0
           || (proofs.err == notFound && (proofs.resp.None? || AllProve(env, hash, proofs.resp.value, root))))
    || (HasProof(env, hash, latest, proofs) && leaves.err == notFound)
  }

  /** A lookup by hash succeeds exactly on such an answer, and is not found exactly when the server says so. */
  lemma ByHashIff(env: Env, hash: Bytes, latest: Rpc<Bytes>, proofs: Rpc<seq<Option<Proof>>>, leaves: Rpc<seq<Leaf>>)
    ensures var r := GetLeafAndProofByHash(env, hash, latest, proofs, leaves);
            && (r.err.None? <==> HasLeaf(env, hash, latest, proofs, leaves))
            && (r.status == OK <==> r.err.None?)
            && (r.status == NotFound <==> SaysNotFound(env, hash, latest, proofs, leaves))
            && (r.err.None? ==>
                r.leafAndProof
                == Some(LeafAndProof(Some(leaves.resp.value[0]), proofs.resp.value[0].value, latest.resp.value)))
  {
    hide Proves;
    if HasRoot(env, latest) && proofs.resp.Some? && |proofs.resp.value| == 1 {
      var root := env.unmarshal(latest.resp.value).value;
      assert AllProve(env, hash, proofs.resp.value, root) <==> ProvesOption(env, hash, proofs.resp.value[0], root);
    }
  }

  /** A lookup by index succeeds exactly when the server answers without an error and its proof verifies. */
  lemma ByIndexIff(env: Env, index: int, latest: Rpc<Bytes>, answer: Rpc<(Option<Proof>, Option<Leaf>)>)
    requires Sound(latest) && Sound(answer)
    ensures var r := GetLeafAndProofByIndex(env, index, latest, answer);
            && (r.Some? && r.value.err.None? && r.value.leafAndProof.Some?
                <==> && HasRoot(env, latest) && answer.err.None?
                     && answer.resp.value.0.Some? && answer.resp.value.1.Some?
                     && var root := env.unmarshal(latest.resp.value).value;
                        Inclusion.Accepts(env.sha, Uint64(index), root.size, answer.resp.value.1.value.merkleLeafHash,
                                          answer.resp.value.0.value.hashes, root.hash))
            && (r.Some? && r.value.leafAndProof.Some? ==>
                r.value.leafAndProof
                == Some(LeafAndProof(answer.resp.value.1, answer.resp.value.0.value, latest.resp.value)))
            && (r.Some? ==> r.value.status == CodeOf(r.value.err))
            && (latest.err.Some? ==> r.Some? && r.value.err == latest.err)
            && (HasRoot(env, latest) && answer.resp.None? ==> r.Some? && r.value.err == answer.err)
  {
    hide Inclusion.Accepts;
  }

  /** The signed root of a result is the root of a log. */
  predicate RootOf(env: Env, signedRoot: Bytes, log: seq<Bytes>) {
    |log| < TWO_64 && env.unmarshal(signedRoot) == Some(LogRoot(|log|, TreeHash(env.sha, log)))
  }

  /**
    So the requester's own body is in the log behind the returned root, at the proof's index, or the proof yields a
    collision.
   */
  lemma ByHashIsInTheLog(env: Env, body: Bytes, r: LeafAndProof, log: seq<Bytes>)
    requires Trustworthy(env, HashLeaf(env.sha, body), r) && RootOf(env, r.signedRoot, log)
    ensures var i := Uint64(r.proof.leafIndex);
            && i < |log| && |r.proof.hashes| == |Sides(i, |log|)|
            && (log[i] == body || IsCollision(env.sha, Inclusion.ForgedPair(env.sha, i, log, body, r.proof.hashes)))
  {
    hide TreeHash, Sides, Climb, Inclusion.ForgedPair, AuditPath, IsCollision, HashLeaf;
    Inclusion.Soundness(env.sha, Uint64(r.proof.leafIndex), log, body, r.proof.hashes);
  }

  /** The value of a leaf is never looked at: any other bytes in its place pass just as well. */
  lemma AnyValuePasses(env: Env, hash: Bytes, latest: Rpc<Bytes>, proofs: Rpc<seq<Option<Proof>>>,
                       leaves: Rpc<seq<Leaf>>, value: Bytes)
    requires var r := GetLeafAndProofByHash(env, hash, latest, proofs, leaves).leafAndProof;
             r.Some? && r.value.leaf.Some?
    ensures var r := GetLeafAndProofByHash(env, hash, latest, proofs, leaves).leafAndProof.value;
            var other := r.(leaf := Some(r.leaf.value.(value := value)));
            && GetLeafAndProofByHash(env, hash, latest, proofs, Rpc(Some([other.leaf.value]), None))
               == Response(OK, None, None, Some(other), None)
            && Trustworthy(env, hash, other)
  {
    hide GetProofByHash, Proves;
    ByHashIsTrustworthy(env, hash, latest, proofs, leaves);
  }

  /** Where a value and the log collide, when they do. */
  function ValuePair(sha: Sha, i: nat, log: seq<Bytes>, hash: Bytes, value: Bytes, hashes: seq<Bytes>): (Bytes, Bytes)
    requires i < |log| && |hashes| == |Sides(i, |log|)|
  {
    if value != log[i] && HashLeaf(sha, value) == HashLeaf(sha, log[i]) then (LeafPreimage(value), LeafPreimage(log[i]))
    else Inclusion.NodePair(sha, i, log, hash, hashes)
  }

  /**
    Whatever bytes are the entry of the log at the proof's index hash to the trusted hash, and only those, or a
    collision shows.
   */
  lemma BytesAreInTheLogIff(env: Env, hash: Bytes, r: LeafAndProof, value: Bytes, log: seq<Bytes>)
    requires Trustworthy(env, hash, r) && RootOf(env, r.signedRoot, log)
    ensures var i := Uint64(r.proof.leafIndex);
            && i < |log| && |r.proof.hashes| == |Sides(i, |log|)|
            && (|| IsCollision(env.sha, ValuePair(env.sha, i, log, hash, value, r.proof.hashes))
                || (value == log[i] <==> HashLeaf(env.sha, value) == hash))
  {
    hide TreeHash, Sides, Climb, Inclusion.NodePair, AuditPath, IsCollision, HashLeaf, LeafPreimage;
    var i := Uint64(r.proof.leafIndex);
    Inclusion.HashSoundness(env.sha, i, log, hash, r.proof.hashes);
    if value != log[i] && HashLeaf(env.sha, value) == HashLeaf(env.sha, log[i]) {
      Inclusion.LeafCollision(env.sha, value, log[i]);
    }
  }

  /**
    A trustworthy result returns the entry of the log at the proof's index if and only if the value it returns
    hashes to the requested hash, which the code does not check, or else it yields a collision.
   */
  lemma ValueIsInTheLogIff(env: Env, hash: Bytes, r: LeafAndProof, log: seq<Bytes>)
    requires Trustworthy(env, hash, r) && RootOf(env, r.signedRoot, log)
    ensures var (i, value) := (Uint64(r.proof.leafIndex), r.leaf.value.value);
            && i < |log| && |r.proof.hashes| == |Sides(i, |log|)|
            && (|| IsCollision(env.sha, ValuePair(env.sha, i, log, hash, value, r.proof.hashes))
                || (value == log[i] <==> HashLeaf(env.sha, value) == hash))
  {
    hide Sides, Proves, RootOf, IsCollision, ValuePair, HashLeaf;
    BytesAreInTheLogIff(env, hash, r, r.leaf.value.value, log);
  }

  /**
    By index: status OK comes with a verified leaf, except that a server answering without
    an error and without a proof gets status OK and no result at all. A proof without a leaf
    gets no answer, whatever else it holds.
   */
  lemma ByIndexIsVerifiedIff(env: Env, index: int, latest: Rpc<Bytes>, answer: Rpc<(Option<Proof>, Option<Leaf>)>)
    requires Sound(latest) && Sound(answer)
    ensures var r := GetLeafAndProofByIndex(env, index, latest, answer);
            var rooted := latest.err.None? && env.unmarshal(latest.resp.value).Some?;
            && (r.None? <==> rooted && answer.resp.Some? && answer.resp.value.0.Some? && answer.resp.value.1.None?)
            && (r.Some? && r.value.err.None? && r.value.leafAndProof.None?
                <==> rooted && answer.err.None? && answer.resp.value.0.None?)
            && (r.Some? && r.value.leafAndProof.Some? ==>
                  var l := r.value.leafAndProof.value;
                  && l.leaf.Some? && env.unmarshal(l.signedRoot).Some?
                  && var root := env.unmarshal(l.signedRoot).value;
                     Inclusion.Accepts(env.sha, Uint64(index), root.size, l.leaf.value.merkleLeafHash, l.proof.hashes,
                                       root.hash))
  {
    hide Inclusion.Accepts;
  }

  // ----- Adding a leaf -----

  /** The end of a wait for a root update: the new trusted root with its timestamp, or an error. */
  datatype Update = Updated(root: LogRoot, nanos: U64) | Failed(err: Error)

  /** The answers a call gets, one for each round of the wait loop. */
  datatype Server = Server(
    queue: Rpc<QueuedLeaf>,
    firstRoot: Rpc<Bytes>,
    delay: Option<Error>,
    latest: nat -> Rpc<Bytes>,
    proofs: nat -> Rpc<seq<Option<Proof>>>,
    update: nat -> Update,
    leaves: Rpc<seq<Leaf>>)

  /** A proof response on which the loop stops: no error, or an error other than not found. */
  predicate Stops(r: Response) { r.err.None? || CodeOf(r.err) != NotFound }

  /** What round `k` of the loop ends with: a final response, or None to go on with an updated root. */
  function Round(env: Env, server: Server, hash: Bytes, root: LogRoot, k: nat): Option<Response> {
    var r := GetProofByHash(env, hash, server.latest(k), server.proofs(k));
    if root.size >= 1 && Stops(r) then Some(r)
    else if server.update(k).Failed? then Some(WaitFailed(server.update(k).err))
    else None
  }

  function NextRoot(server: Server, k: nat): LogRoot
    requires server.update(k).Updated?
  {
    server.update(k).root
  }

  /** Rounds from `k` on, at most `rounds` of them; None when all of them asked for another. */
  function Wait(env: Env, server: Server, hash: Bytes, root: LogRoot, k: nat, rounds: nat): Option<Response>
    decreases rounds
  {
    if rounds == 0 then None
    else
      var r := Round(env, server, hash, root, k);
      if r.Some? then r else Wait(env, server, hash, NextRoot(server, k), k + 1, rounds - 1)
  }

  function WaitFailed(err: Error): Response { Response(Unknown, Some(err), None, None, None) }

  /** The response to round `j`. */
  predicate IsRoundAnswer(env: Env, server: Server, hash: Bytes, r: Response, j: nat) {
    || (server.update(j).Failed? && r == WaitFailed(server.update(j).err))
    || (Stops(r) && r == GetProofByHash(env, hash, server.latest(j), server.proofs(j)))
  }

  /** The loop is left only with a proof, an error other than not found, or a failed wait. */
  lemma {:induction false} WaitEndsWell(env: Env, server: Server, hash: Bytes, root: LogRoot, k: nat, rounds: nat)
    requires Wait(env, server, hash, root, k, rounds).Some?
    ensures exists j: nat :: && k <= j < k + rounds
                             && IsRoundAnswer(env, server, hash, Wait(env, server, hash, root, k, rounds).value, j)
    decreases rounds
  {
    hide GetProofByHash, Stops;
    if Round(env, server, hash, root, k).None? {
      WaitEndsWell(env, server, hash, NextRoot(server, k), k + 1, rounds - 1);
    } else {
      assert IsRoundAnswer(env, server, hash, Wait(env, server, hash, root, k, rounds).value, k);
    }
  }

  /** The trusted root at the start of round `k`. */
  function RootAt(server: Server, root: LogRoot, k: nat): LogRoot {
    if k == 0 then root else if server.update(k - 1).Updated? then server.update(k - 1).root else root
  }

  /** An update in round `k` grows the root. */
  predicate GrowsAt(server: Server, root: LogRoot, k: nat) {
    server.update(k).Updated? ==> RootAt(server, root, k).size < server.update(k).root.size
  }

  /** From size `n` on, the leaf is found or the lookup fails for a reason other than not found. */
  predicate FoundAt(env: Env, server: Server, hash: Bytes, root: LogRoot, n: nat, k: nat) {
    n <= RootAt(server, root, k).size ==> Stops(GetProofByHash(env, hash, server.latest(k), server.proofs(k)))
  }

  /** Every update grows the root. */
  ghost predicate KeepsGrowing(server: Server, root: LogRoot) { forall k: nat :: GrowsAt(server, root, k) }

  /** Every update grows the root, and the leaf is integrated by size `n`. */
  ghost predicate Integrates(env: Env, server: Server, hash: Bytes, root: LogRoot, n: nat) {
    && 1 <= n
    && KeepsGrowing(server, root)
    && (forall k: nat :: FoundAt(env, server, hash, root, n, k))
  }

  /** Growth alone ends the wait: no root has 2^64 leaves, so by that size anything is integrated. */
  lemma GrowthIsEnough(env: Env, server: Server, hash: Bytes, root: LogRoot)
    requires KeepsGrowing(server, root)
    ensures Integrates(env, server, hash, root, TWO_64)
  {
    hide GrowsAt, GetProofByHash;
  }

  /** Every update comes with a later timestamp than the one before it. */
  ghost predicate KeepsNewer(server: Server) {
    forall k: nat :: server.update(k).Updated? && server.update(k + 1).Updated? ==>
      server.update(k).nanos < server.update(k + 1).nanos
  }

  /** Later timestamps alone end the wait, even when roots keep their size: there are only 2^64 of them. */
  lemma {:induction false} NewerRootsEndTheWait(env: Env, server: Server, hash: Bytes, root: LogRoot, k: nat, left: nat)
    requires KeepsNewer(server)
    requires k > 0 ==> server.update(k - 1).Updated? && server.update(k - 1).nanos + left >= TWO_64
    requires k == 0 ==> left > TWO_64
    ensures Wait(env, server, hash, root, k, left + 1).Some?
    decreases left
  {
    hide GetProofByHash, Stops;
    if Round(env, server, hash, root, k).None? {
      NewerRootsEndTheWait(env, server, hash, NextRoot(server, k), k + 1, left - 1);
    }
  }

  /** The rounds a root may still need: one more than it has to grow. */
  function Rounds(root: LogRoot, n: nat): nat { 1 + (if root.size < n then n - root.size else 0) }

  /** The loop ends within as many rounds as the root still has to grow. */
  lemma {:induction false} WaitTerminates(env: Env, server: Server, hash: Bytes, root: LogRoot, n: nat, k: nat)
    requires Integrates(env, server, hash, root, n)
    requires k > 0 ==> server.update(k - 1).Updated?
    ensures var r := RootAt(server, root, k); Wait(env, server, hash, r, k, Rounds(r, n)).Some?
    decreases Rounds(RootAt(server, root, k), n)
  {
    hide GetProofByHash, Stops;
    var r := RootAt(server, root, k);
    assert GrowsAt(server, root, k) && FoundAt(env, server, hash, root, n, k);
    if Round(env, server, hash, r, k).None? {
      var next := RootAt(server, root, k + 1);
      assert next == NextRoot(server, k) && r.size < next.size && r.size < n;
      WaitTerminates(env, server, hash, root, n, k + 1);
      WaitMonotone(env, server, hash, next, k + 1, Rounds(next, n), Rounds(r, n) - 1);
    }
  }

  /** More rounds never change an answer. */
  lemma {:induction false} WaitMonotone(env: Env, server: Server, hash: Bytes, root: LogRoot, k: nat, rounds: nat,
                                        more: nat)
    requires rounds <= more && Wait(env, server, hash, root, k, rounds).Some?
    ensures Wait(env, server, hash, root, k, more) == Wait(env, server, hash, root, k, rounds)
    decreases rounds
  {
    if Round(env, server, hash, root, k).None? {
      WaitMonotone(env, server, hash, NextRoot(server, k), k + 1, rounds - 1, more - 1);
    }
  }

  /** The rest of `AddLeaf` once the wait is over; the queued leaf is replaced by the integrated one. */
  function Finish(queued: QueuedLeaf, proofResp: Response, leaves: Rpc<seq<Leaf>>): Response {
    var r := LeafForProof(queued.leaf.merkleLeafHash, proofResp, leaves);
    if r.leafAndProof.None? || r.leafAndProof.value.leaf.None? then r.(addResult := Some(queued))
    else Response(OK, None, Some(queued.(leaf := r.leafAndProof.value.leaf.value)), r.leafAndProof, None)
  }

  /** `AddLeaf` before its wait loop: a final response, or a queued leaf and the root to start waiting from. */
  datatype Start = Early(response: Response) | Waiting(queued: QueuedLeaf, first: LogRoot)

  function BeforeWait(env: Env, server: Server): Start
    requires Sound(server.queue) && Sound(server.firstRoot)
  {
    if server.queue.err.Some?
      || (server.queue.resp.value.status.Some? && server.queue.resp.value.status.value != OK) then
      Early(Response(CodeOf(server.queue.err), server.queue.err, server.queue.resp, None, None))
    else if server.firstRoot.err.Some? then
      Early(Response(CodeOf(server.firstRoot.err), server.firstRoot.err, server.queue.resp, None, None))
    else
      var first := env.unmarshal(server.firstRoot.resp.value);
      if first.None? then
        Early(Response(Unknown, Some(PlainError("unmarshalling log root")), server.queue.resp, None, None))
      else Waiting(server.queue.resp.value, first.value)
  }

  /** The response of the wait, within the given number of rounds. */
  function WaitResponse(env: Env, server: Server, hash: Bytes, first: LogRoot, rounds: nat): Option<Response> {
    if server.delay.Some? then Some(Response(DeadlineExceeded, server.delay, None, None, None))
    else Wait(env, server, hash, first, 0, rounds)
  }

  lemma WaitVerified(env: Env, server: Server, hash: Bytes, first: LogRoot, rounds: nat)
    requires WaitResponse(env, server, hash, first, rounds).Some?
    ensures Verified(env, hash, WaitResponse(env, server, hash, first, rounds).value)
  {
    if server.delay.None? {
      var r := Wait(env, server, hash, first, 0, rounds).value;
      WaitEndsWell(env, server, hash, first, 0, rounds);
      var j: nat :| 0 <= j < 0 + rounds && IsRoundAnswer(env, server, hash, r, j);
      ProofResultVerified(env, hash, server.latest(j), server.proofs(j));
    }
  }

  /** The answer of `AddLeaf`, or None while it is still waiting after that many rounds. */
  function AddLeafAnswer(env: Env, server: Server, rounds: nat): Option<Response>
    requires Sound(server.queue) && Sound(server.firstRoot)
  {
    match BeforeWait(env, server)
    case Early(r) => Some(r)
    case Waiting(queued, first) =>
      var wait := WaitResponse(env, server, queued.leaf.merkleLeafHash, first, rounds);
      if wait.None? then None else Some(Finish(queued, wait.value, server.leaves))
  }

  /** The leaf was refused by a status in the answer to the queue request, which itself had no error. */
  predicate RefusedByStatus(queue: Rpc<QueuedLeaf>) {
    queue.err.None? && queue.resp.Some? && queue.resp.value.status.Some? && queue.resp.value.status.value != OK
  }

  /**
    Whatever the server answers and however long it takes: a result of `AddLeaf` is trustworthy for the
    queued leaf's hash and carries the integrated leaf. Without an error there is such a result, except
    for a leaf refused by its queue status: that comes back with status OK, no error and no result.
   */
  lemma AddLeafIsTrustworthy(env: Env, server: Server, rounds: nat)
    requires Sound(server.queue) && Sound(server.firstRoot)
    requires AddLeafAnswer(env, server, rounds).Some?
    ensures var r := AddLeafAnswer(env, server, rounds).value;
            && r.status == CodeOf(r.err)
            && (r.err.None? <==> r.leafAndProof.Some? || RefusedByStatus(server.queue))
            && (RefusedByStatus(server.queue) ==>
                r.status == OK && r.leafAndProof.None? && r.addResult == server.queue.resp)
            && (r.leafAndProof.Some? ==>
                  && r.status == OK && server.queue.resp.Some?
                  && Trustworthy(env, server.queue.resp.value.leaf.merkleLeafHash, r.leafAndProof.value)
                  && r.addResult.Some? && r.leafAndProof.value.leaf == Some(r.addResult.value.leaf))
  {
    hide GetProofByHash, Wait, ProvesOption, LeafForProof;
    match BeforeWait(env, server)
    case Early(_) =>
    case Waiting(queued, first) =>
      var hash := queued.leaf.merkleLeafHash;
      var proofResp := WaitResponse(env, server, hash, first, rounds).value;
      WaitVerified(env, server, hash, first, rounds);
      LeafForProofTrustworthy(env, hash, proofResp, server.leaves);
  }

  /**
    What is stored at the proof's index of the log is what was submitted if and only if the log server queued it
    under its own hash, which `AddLeaf` does not check, or else a collision shows.
   */
  lemma SubmittedIsStoredIff(env: Env, server: Server, rounds: nat, body: Bytes, log: seq<Bytes>)
    requires Sound(server.queue) && Sound(server.firstRoot)
    requires AddLeafAnswer(env, server, rounds).Some?
    requires var r := AddLeafAnswer(env, server, rounds).value.leafAndProof;
             r.Some? && RootOf(env, r.value.signedRoot, log)
    ensures server.queue.resp.Some?
    ensures var (r, hash) := (AddLeafAnswer(env, server, rounds).value.leafAndProof.value,
                              server.queue.resp.value.leaf.merkleLeafHash);
            var i := Uint64(r.proof.leafIndex);
            && i < |log| && |r.proof.hashes| == |Sides(i, |log|)|
            && (|| IsCollision(env.sha, ValuePair(env.sha, i, log, hash, body, r.proof.hashes))
                || (log[i] == body <==> hash == HashLeaf(env.sha, body)))
  {
    hide AddLeafAnswer, Sides, Trustworthy, RootOf, IsCollision, ValuePair, HashLeaf;
    AddLeafIsTrustworthy(env, server, rounds);
    var r := AddLeafAnswer(env, server, rounds).value.leafAndProof.value;
    BytesAreInTheLogIff(env, server.queue.resp.value.leaf.merkleLeafHash, r, body, log);
  }

  /** `AddLeaf`, whenever its loop ends: within `rounds` rounds. */
  method AddLeaf(env: Env, server: Server, ghost rounds: nat) returns (r: Response)
    requires Sound(server.queue) && Sound(server.firstRoot)
    requires AddLeafAnswer(env, server, rounds).Some?
    ensures Some(r) == AddLeafAnswer(env, server, rounds)
  {
    if server.queue.err.Some? || (server.queue.resp.value.status.Some? && server.queue.resp.value.status.value != OK) {
      return Response(CodeOf(server.queue.err), server.queue.err, server.queue.resp, None, None);
    }
    var queued := server.queue.resp.value;
    if server.firstRoot.err.Some? {
      return Response(CodeOf(server.firstRoot.err), server.firstRoot.err, Some(queued), None, None);
    }
    var first := env.unmarshal(server.firstRoot.resp.value);
    if first.None? {
      return Response(Unknown, Some(PlainError("unmarshalling log root")), Some(queued), None, None);
    }
    hide Wait, Finish;
    var proofResp := WaitForInclusion(env, server, queued.leaf.merkleLeafHash, first.value, rounds);
    r := Finish(queued, proofResp, server.leaves);
  }

  /** The wait loop of `AddLeaf`. */
  method WaitForInclusion(env: Env, server: Server, hash: Bytes, first: LogRoot, ghost rounds: nat)
    returns (r: Response)
    requires WaitResponse(env, server, hash, first, rounds).Some?
    ensures Some(r) == WaitResponse(env, server, hash, first, rounds)
  {
    if server.delay.Some? {
      return Response(DeadlineExceeded, server.delay, None, None, None);
    }
    var k, root := 0, first;
    ghost var left := rounds;
    hide GetProofByHash;
    while true
      invariant Wait(env, server, hash, root, k, left).Some?
      invariant Wait(env, server, hash, root, k, left) == Wait(env, server, hash, first, 0, rounds)
      decreases left
    {
      if root.size >= 1 {
        r := GetProofByHash(env, hash, server.latest(k), server.proofs(k));
        if r.err.None? || CodeOf(r.err) != NotFound {
          return;
        }
      }
      if server.update(k).Failed? {
        return WaitFailed(server.update(k).err);
      }
      root := server.update(k).root;
      k := k + 1;
      left := left - 1;
    }
  }

  /** The whole call ends when the log keeps growing or its roots keep getting newer. */
  lemma AddLeafEnds(env: Env, server: Server)
    requires Sound(server.queue) && Sound(server.firstRoot)
    requires var start := BeforeWait(env, server);
             start.Waiting? ==> KeepsGrowing(server, start.first) || KeepsNewer(server)
    ensures AddLeafAnswer(env, server, TWO_64 + 2).Some?
  {
    hide Finish, KeepsGrowing, KeepsNewer, Round, GetProofByHash;
    var start := BeforeWait(env, server);
    if start.Waiting? {
      var (hash, first) := (start.queued.leaf.merkleLeafHash, start.first);
      if KeepsNewer(server) {
        NewerRootsEndTheWait(env, server, hash, first, 0, TWO_64 + 1);
      } else {
        GrowthIsEnough(env, server, hash, first);
        WaitTerminates(env, server, hash, first, TWO_64, 0);
        WaitMonotone(env, server, hash, first, 0, Rounds(first, TWO_64), TWO_64 + 2);
      }
    }
  }

  // ----- An honest log server -----

  /** The root of the log, and the proof that its entry `m` is in it. */
  predicate HonestProof(env: Env, log: seq<Bytes>, m: nat, latest: Rpc<Bytes>, proof: Proof) {
    && m < |log| < TWO_63
    && latest.err.None? && latest.resp.Some? && RootOf(env, latest.resp.value, log)
    && proof == Proof(m, AuditPath(env.sha, m, log))
  }

  /** An honest proof passes, and comes back with the root it was proved against. */
  lemma HonestProofPasses(env: Env, log: seq<Bytes>, m: nat, latest: Rpc<Bytes>, proof: Proof)
    requires HonestProof(env, log, m, latest, proof)
    ensures GetProofByHash(env, HashLeaf(env.sha, log[m]), latest, Rpc(Some([Some(proof)]), None))
            == Response(OK, None, None, None, Some(ProofResult([Some(proof)], latest.resp.value)))
  {
    hide TreeHash, AuditPath, Inclusion.Accepts, Inclusion.Chain, HashLeaf;
    Inclusion.Completeness(env.sha, m, log);
    var root := env.unmarshal(latest.resp.value).value;
    assert ProvesOption(env, HashLeaf(env.sha, log[m]), Some(proof), root);
  }

  /** With the leaf of that hash it is the answer to a lookup by hash. */
  lemma HonestByHash(env: Env, log: seq<Bytes>, m: nat, latest: Rpc<Bytes>, proof: Proof, leaf: Leaf)
    requires HonestProof(env, log, m, latest, proof) && leaf.merkleLeafHash == HashLeaf(env.sha, log[m])
    ensures GetLeafAndProofByHash(env, leaf.merkleLeafHash, latest, Rpc(Some([Some(proof)]), None),
                                  Rpc(Some([leaf]), None))
            == Response(OK, None, None, Some(LeafAndProof(Some(leaf), proof, latest.resp.value)), None)
  {
    hide GetProofByHash, HonestProof, HashLeaf;
    HonestProofPasses(env, log, m, latest, proof);
  }

  /** And to a lookup by index. */
  lemma HonestByIndex(env: Env, log: seq<Bytes>, m: nat, latest: Rpc<Bytes>, proof: Proof, leaf: Leaf)
    requires HonestProof(env, log, m, latest, proof) && leaf.merkleLeafHash == HashLeaf(env.sha, log[m])
    ensures GetLeafAndProofByIndex(env, m, latest, Rpc(Some((Some(proof), Some(leaf))), None))
            == Some(Response(OK, None, None, Some(LeafAndProof(Some(leaf), proof, latest.resp.value)), None))
  {
    hide TreeHash, AuditPath, Inclusion.Accepts, Inclusion.Chain, HashLeaf;
    Inclusion.Completeness(env.sha, m, log);
  }

  /** The root decodes, and the log is empty or knows no such leaf. */
  predicate HonestMiss(env: Env, latest: Rpc<Bytes>, proofs: Rpc<seq<Option<Proof>>>) {
    && latest.err.None? && latest.resp.Some? && env.unmarshal(latest.resp.value).Some?
    && (env.unmarshal(latest.resp.value).value.size == 0 || proofs == Rpc(None, Some(StatusError(NotFound))))
  }

  /** In round `j` the tree is still empty or the leaf not yet in it, and a new root comes. */
  predicate NotYetAt(env: Env, server: Server, first: LogRoot, j: nat) {
    && server.update(j).Updated?
    && (RootAt(server, first, j).size == 0 || HonestMiss(env, server.latest(j), server.proofs(j)))
  }

  predicate NotYet(env: Env, server: Server, first: LogRoot, k: nat) {
    forall j: nat :: j < k ==> NotYetAt(env, server, first, j)
  }

  lemma MissIsNotFound(env: Env, hash: Bytes, latest: Rpc<Bytes>, proofs: Rpc<seq<Option<Proof>>>)
    requires HonestMiss(env, latest, proofs)
    ensures GetProofByHash(env, hash, latest, proofs) == Failure(StatusError(NotFound))
  {
    hide AllProve;
  }

  /** The wait goes on through all of those rounds. */
  lemma {:induction false} WaitGoesOn(env: Env, server: Server, hash: Bytes, first: LogRoot, j: nat, k: nat, more: nat)
    requires j <= k && NotYet(env, server, first, k) && (j > 0 ==> server.update(j - 1).Updated?)
    ensures Wait(env, server, hash, RootAt(server, first, j), j, k - j + more)
            == Wait(env, server, hash, RootAt(server, first, k), k, more)
    decreases k - j
  {
    hide GetProofByHash, HonestMiss;
    if j < k {
      assert NotYetAt(env, server, first, j);
      if RootAt(server, first, j).size > 0 {
        MissIsNotFound(env, hash, server.latest(j), server.proofs(j));
      }
      WaitGoesOn(env, server, hash, first, j + 1, k, more);
    }
  }

  /**
    A leaf queued under its hash at an honest log is added: whatever number of rounds it takes to be integrated, the
    call then returns the integrated leaf with the log's own proof and the root it was proved against.
   */
  lemma HonestAppend(env: Env, server: Server, log: seq<Bytes>, m: nat, k: nat, proof: Proof, leaf: Leaf)
    requires Sound(server.queue) && Sound(server.firstRoot) && server.delay.None?
    requires BeforeWait(env, server).Waiting?
    requires var (queued, first) := (BeforeWait(env, server).queued, BeforeWait(env, server).first);
             && HonestProof(env, log, m, server.latest(k), proof)
             && queued.leaf.merkleLeafHash == leaf.merkleLeafHash == HashLeaf(env.sha, log[m])
             && NotYet(env, server, first, k) && 1 <= RootAt(server, first, k).size
    requires server.proofs(k) == Rpc(Some([Some(proof)]), None) && server.leaves == Rpc(Some([leaf]), None)
    ensures AddLeafAnswer(env, server, k + 1)
            == Some(Response(OK, None, Some(BeforeWait(env, server).queued.(leaf := leaf)),
                             Some(LeafAndProof(Some(leaf), proof, server.latest(k).resp.value)), None))
  {
    hide HonestProof, GetProofByHash, HashLeaf, NotYet, HonestMiss;
    var (queued, first) := (BeforeWait(env, server).queued, BeforeWait(env, server).first);
    WaitGoesOn(env, server, leaf.merkleLeafHash, first, 0, k, 1);
    HonestProofPasses(env, log, m, server.latest(k), proof);
  }

  /**
    What starts the wait: a leaf queued without an error and without a status other than OK, and a root that
    decodes.
   */
  lemma WaitStartsIff(env: Env, server: Server)
    requires Sound(server.queue) && Sound(server.firstRoot)
    ensures BeforeWait(env, server).Waiting?
            <==> && server.queue.err.None? && server.queue.resp.value.status in {None, Some(OK)}
                 && server.firstRoot.err.None? && env.unmarshal(server.firstRoot.resp.value).Some?
    ensures BeforeWait(env, server).Waiting? ==>
              && server.queue.resp == Some(BeforeWait(env, server).queued)
              && env.unmarshal(server.firstRoot.resp.value) == Some(BeforeWait(env, server).first)
  {
  }

  /** A call whose wait cannot start ends with that error and the queued leaf. */
  lemma DelayedAppendFails(env: Env, server: Server, rounds: nat)
    requires Sound(server.queue) && Sound(server.firstRoot) && server.delay.Some?
    requires BeforeWait(env, server).Waiting?
    ensures AddLeafAnswer(env, server, rounds)
            == Some(Failure(server.delay.value).(addResult := Some(BeforeWait(env, server).queued)))
  {
  }

  /** A wait for a new root that fails ends the call with that error. */
  lemma FailedWaitEnds(env: Env, server: Server, k: nat)
    requires Sound(server.queue) && Sound(server.firstRoot) && server.delay.None? && BeforeWait(env, server).Waiting?
    requires var first := BeforeWait(env, server).first;
             && NotYet(env, server, first, k) && server.update(k).Failed?
             && (RootAt(server, first, k).size == 0 || HonestMiss(env, server.latest(k), server.proofs(k)))
    ensures AddLeafAnswer(env, server, k + 1)
            == Some(Failure(server.update(k).err).(addResult := Some(BeforeWait(env, server).queued)))
  {
    hide GetProofByHash, NotYet, HonestMiss;
    var (queued, first) := (BeforeWait(env, server).queued, BeforeWait(env, server).first);
    WaitGoesOn(env, server, queued.leaf.merkleLeafHash, first, 0, k, 1);
    if RootAt(server, first, k).size > 0 {
      MissIsNotFound(env, queued.leaf.merkleLeafHash, server.latest(k), server.proofs(k));
    }
  }

  /**
    An error of the queue or of the first root ends the call with that error, and with the queued leaf if there is
    one.
   */
  lemma EarlyErrorsComeBack(env: Env, server: Server, rounds: nat)
    requires Sound(server.queue) && Sound(server.firstRoot)
    ensures server.queue.err.Some? ==>
              AddLeafAnswer(env, server, rounds)
              == Some(Failure(server.queue.err.value).(addResult := server.queue.resp))
    ensures server.queue.err.None? && !RefusedByStatus(server.queue) && server.firstRoot.err.Some? ==>
              AddLeafAnswer(env, server, rounds)
              == Some(Failure(server.firstRoot.err.value).(addResult := server.queue.resp))
  {
  }
}
