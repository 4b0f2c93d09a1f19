# Rekor: a verified model of the log front end

Rekor keeps signed metadata in an append-only Merkle tree. The server queues entries in a Trillian
log, wraps the leaves it gets back in signed entries and checkpoints, and spreads them over shards
that look like one log. The client checks inclusion, signatures and consistency. This project models
that path from end to end and proves what it promises, in Dafny 4.11
(`dafny verify dfyconfig.toml`).

| file | what it models |
|---|---|
| `Merkle`, `Bits`, `Inclusion`, `Consistency` | tree hashes, the proof chain that `rekor-cli verify` prints, the library's inclusion and consistency verifiers |
| `Base64`, `Hex`, `Numerals`, `Text`, `Signing` | the encodings everything is written in, each with its round trip |
| `SignedNote`, `Checkpoint` | printing, parsing, signing and verifying signed checkpoints |
| `Sharding`, `Rotation`, `EntryID`, `SignerConfig` | the virtual log over shards, its life, entry IDs, the signers of a shard |
| `ClientManager`, `TrillianClient` | the connection and client cache under concurrent calls, and the checks on what a log server answers |
| `Entries`, `Retrieval`, `Verify`, `EndToEnd`, `VerifyCommand` | assembling, looking up, checking and printing entries |
| `LogInfo`, `Backfill` | the client's stored checkpoints across runs, the concurrent index backfill |

## How to read it

- SHA-256 is a parameter `sha: Bytes -> Digest`. It is never assumed injective, which no function
  onto 32 bytes is. Soundness results name a function that computes two messages from the forged
  proof and say that these two messages collide.
- Signatures are a parameter with one law: a signer's own key accepts what it signed. RFC 8785
  canonicalization is a function of the JSON object, so it cannot depend on member order.
- What servers, files, key loading and dialling answer are parameters, and they may answer anything
  unless a lemma says otherwise. Concurrent code is a transition system over its lock-protected
  sections or its separate remote commands, and theorems are over every interleaving.
- Fixed-width integers are written out: `Int64` and `Uint64` are Go's casts with wrap-around.
- Code that updates fields or loops is a class or a method, proved against a function of the inputs
  or of the old state; the theorems are about that function.
- The library verifiers that the code calls are the algorithms of section 2.1.3.2 and section
  2.1.4.2 of RFC 9162. Trees, audit paths and consistency proofs are those of section 2.1, section
  2.1.1 and section 2.1.2 of RFC 6962. Base64 is that of section 4 of RFC 4648.

## Where the code does not do what one might expect

Each of these is a lemma, with the exact condition under which the expected property holds.

- The printed hash chain checks no proof length, so alone it proves nothing
  (`Inclusion.ChainNeedsLengthCheck`); with the length it agrees with the verifier
  (`Inclusion.ChainRefinesVerifier`).
- The index in an accepted entry is only as good as the tree size it claims
  (`Inclusion.WrongSizeWrongIndex`). The entry is in the log for any claimed size, and the index is
  right exactly when the claimed and the real size give the same `inner` (`Inclusion.IndexIsRightIff`,
  `Verify.AcceptedBodyIsInLog`).
- The client compares neither the claimed size with the signed one nor the two roots byte by byte; what
  then still holds of the signed log is `Verify.SignedLogHoldsBody`.
- No one on the server hashes the leaf value a log server returns (`TrillianClients.AnyValuePasses`); it
  is the log's entry exactly when it hashes to the hash asked for (`TrillianClients.ValueIsInTheLogIff`),
  which is what the client's body check tests (`Retrieval.BodyMatchesIff`).
- Two shards with one tree ID lose indexes, exactly when they start at different places and the later
  one can hold a leaf (`Sharding.IndexesComeBackIff`).
- A note's signature line of 64 KiB or more is dropped without an error together with every
  signature after it, because the scanner's error is not looked at (`SignedNotes.LongLineHidesTheRest`,
  `SignedNotes.ScannedAll`).
- `Verify` looks only at the first signature with the key's hint (`Checkpoints.PublishedVerifiesIff`).
- A `GetTrillianClient` call that is past its first check when `Close` runs can leave an open
  connection behind (`ClientManagers.CloseCanLeakAConnection`, `ClientManagers.ConnectionsStayClosedIff`).
- A leaf refused by its queue status comes back from `AddLeaf` with status OK, no error and no result
  (`TrillianClients.AddLeafIsTrustworthy`). A by-index answer without a proof does too, and one with a
  proof but no leaf makes the client read a leaf that is not there (`TrillianClients.ByIndexIsVerifiedIff`);
  `retrieveLogEntryByIndex` has a branch for neither (`Retrieval.ByIndexNoResultIff`).
- `AddLeaf` never compares what it submitted with what was queued: the log holds what was submitted exactly
  when it was queued under its own hash (`TrillianClients.SubmittedIsStoredIff`).
- An entry ID typed in upper case passes the flag and the request patterns, is found by the server and
  then refused by the client's own comparison (`Retrieval.UpperIDIsFoundAndRefused`); the client takes
  what is found exactly for requests without an upper-case digit (`Retrieval.UpperCaseIsRefusedIff`).
- Negative tree IDs can be written into an entry ID exactly when they have fifteen digits
  (`EntryIDs.EntryIDRoundTrip`).
- An empty leaf is served but never accepted: its body is null in JSON
  (`EndToEnd.AssembledIsAcceptedIff`).
- A checkpoint stored under the server's URL is overwritten without a consistency check by a call that
  names another tree (`LogInfo.SharedKeyIsOverwritten`), and a write of the state file that breaks off
  after truncating it loses every checkpoint, so that a smaller head is taken next
  (`LogInfo.TornWriteForgets`). The stored chain holds exactly without both (`LogInfo.ChainHoldsIff`).
- Two backfill workers with the same entry can list it twice (`Backfill.EachPairOnceIffDisjoint`). A
  refused push loses its pair, exactly when no later command pushes it (`Backfill.CountIsExact`), until
  the backfill is run again (`Backfill.RerunRepairs`).

The name `idempotentAddToIndex` promises idempotence; the code gives it only to workers with entries
of their own, and the model follows the code.

## Model

| member | source | states |
|---|---|---|
| `Inclusion.VerifyInclusion` | pkg/verify/verify.go:171-174 | the shifting loop of RFC 9162 accepts exactly a proof with one sibling for each level of the recursive tree that hashes up to the root |
| `Bits.LenXorIsLeastAgreement` | cmd/rekor-cli/app/verify.go:64-64 | the bit length of a xor is the least number of low bits to drop before the two numbers agree |
| `Bits.ShrIsQuotient` | cmd/rekor-cli/app/verify.go:68-68 | a right shift is the quotient by a power of two |
| `Merkle.SplitPointIsLargestPower` | cmd/rekor-cli/app/verify.go:63-75 | the tree of RFC 6962 splits at the largest power of two below its size |
| `Merkle.KnownTrees` | pkg/verify/verify.go:168-174 | the hashes of trees of up to three leaves, written out with the prefixes 0 and 1 of RFC 6962 |
| `Inclusion.ChainIsClimb` | cmd/rekor-cli/app/verify.go:62-80 | the bit rule of the printed chain turns left and right exactly as the recursive tree does, level by level |
| `Inclusion.SidesCount` | cmd/rekor-cli/app/verify.go:62-80 | the depth of a leaf is the bit length of index xor last index plus the number of set bits above it |
| `Inclusion.ChainRefinesVerifier` | cmd/rekor-cli/app/verify.go:62-80 | the verifier accepts if and only if the index is in range, the proof has that length and the printed chain ends at the root |
| `Inclusion.Completeness` | cmd/rekor-cli/app/verify.go:62-80 | for every non-empty log and index, the audit path has the right length, is accepted, and the printed chain ends at the tree hash |
| `Inclusion.HashSoundness` | pkg/verify/verify.go:171-174 | a hash accepted at an index of a log is the hash of the entry there, with its one audit path, or a hash collision shows |
| `Inclusion.Soundness` | pkg/verify/verify.go:141-177 | a proof accepted against the tree hash of a log is for the very entry at that index and is its one audit path, or it yields a hash collision |
| `Inclusion.PathStartsInLog` | pkg/verify/verify.go:141-177 | any path from a leaf hash to the tree hash of a log starts at the entry its turns lead to, or yields a hash collision |
| `Inclusion.PlaceOfSides` | pkg/verify/verify.go:171-174 | a path leads to a leaf exactly when it is that leaf's own, so no two leaves of a tree have the same turns |
| `Inclusion.SameSidesIff` | cmd/rekor-cli/app/verify.go:64-68 | a leaf has the same turns in trees of two sizes if and only if the chain computes the same `inner` for both |
| `Inclusion.IndexIsRightIff` | pkg/verify/verify.go:171-174 | whatever index and size are claimed, the body is the entry the turns lead to; it sits at the claimed index if and only if the log has that index and the same `inner` there, or a hash collision shows |
| `Inclusion.ChainNeedsLengthCheck` | cmd/rekor-cli/app/verify.go:62-80 | without the length check the chain accepts the root as an entry hash at any index, and the verifier does not |
| `Inclusion.WrongSizeWrongIndex` | pkg/verify/verify.go:171-174 | the entry after a full tree is also accepted as the second of two when the claimed size says so, although its turns lead to its real place |
| `Consistency.VerifyConsistency` | pkg/verify/verify.go:67-70 | the shifting loop of RFC 9162 accepts exactly a proof whose hashes lead from the last full subtree of the old tree to both roots |
| `Consistency.ForkSidesAgree` | pkg/verify/verify.go:67-70 | the shifting form and the recursive form of the path between two tree sizes have the same sides |
| `Consistency.TreeHashBinds` | pkg/verify/verify.go:46-49 | two logs of one size and one tree hash are the same log, or yield a hash collision |
| `Consistency.ConsistencySoundness` | pkg/verify/verify.go:50-70 | an accepted proof between the tree hashes of two logs makes the first a prefix of the second, or yields a hash collision |
| `Consistency.ConsistencyCompleteness` | pkg/verify/verify.go:50-70 | the RFC 6962 consistency proof between any two sizes of a growing log is accepted |
| `Base64.RoundTrip` | pkg/util/signed_note.go:138-139 | decoding undoes encoding for all bytes |
| `Base64.KnownEncodings` | pkg/util/signed_note.go:138-139 | test vectors of section 10 of RFC 4648 and the last two symbols of the alphabet |
| `Base64.KnownDecodings` | pkg/util/signed_note.go:181-184 | padding is needed and ends the text, stray low bits before it and line breaks are let through |
| `Hex.RoundTrip` | pkg/api/entries.go:104-107 | decoding undoes encoding for all bytes |
| `Hex.EncodeDecoded` | pkg/api/entries.go:104-107 | encoding what was decoded gives the digits back in lower case |
| `Hex.KnownEncodings` | pkg/api/entries.go:104-107 | two lower-case digits for each byte; upper case is read, an odd length or another character is not |
| `Numerals.FormatRoundTrip` | pkg/util/checkpoint.go:45-52 | reading digits back gives the number printed, in any base |
| `Numerals.ParseUintRoundTrip` | pkg/util/checkpoint.go:80-83 | a printed uint64 parses to itself |
| `Numerals.FormatIntParses` | pkg/util/checkpoint.go:174-178 | a printed int64 parses to itself, whatever its sign |
| `Numerals.FormatIntInjective` | pkg/util/checkpoint.go:174-178 | different numbers print differently |
| `Numerals.KnownNumerals` | pkg/util/checkpoint.go:45-52 | known decimal and hexadecimal numerals, one with a sign |
| `Numerals.ParseIntIs` | pkg/sharding/sharding.go:141-168 | digits with or without a sign parse to their number exactly when it is an int64 |
| `Numerals.ParsedIntIs` | pkg/sharding/sharding.go:141-168 | nothing else parses |
| `Signing.HintRoundTrip` | pkg/util/signed_note.go:136-139 | a key hint is read back from its four big-endian bytes, and the signature from the rest |
| `Signing.HintBytesRoundTrip` | pkg/util/signed_note.go:189-193 | reading the hint of any signature and writing it again restores the bytes |
| `Signing.KnownHints` | pkg/util/signed_note.go:136-139 | the four bytes of a hint, most significant first |
| `SignedNotes.SignedNote.Sign` | pkg/util/signed_note.go:42-65 | on success the signature over the text is appended and returned; on failure the note is unchanged |
| `SignedNotes.SignedNote.Verify` | pkg/util/signed_note.go:71-106 | true exactly when the first signature with the key's hint decodes and holds over the text |
| `SignedNotes.SignedNote.VerifyAll` | pkg/util/signed_note.go:112-123 | true exactly when there is a signature, there is a key, and every key accepts |
| `SignedNotes.NoKeysVerifyNothing` | pkg/util/signed_note.go:112-123 | without a key or without a signature nothing is verified |
| `SignedNotes.SignedNote.String` | pkg/util/signed_note.go:131-144 | the text, a blank line and one line for each signature in order |
| `SignedNotes.KnownNote` | pkg/util/signed_note.go:131-144 | the printed form of one note, character by character |
| `SignedNotes.SignedNote.UnmarshalText` | pkg/util/signed_note.go:158-204 | the note becomes the parsed one, and is unchanged with the parser's error otherwise |
| `SignedNotes.ScanSignatures` | pkg/util/signed_note.go:174-196 | the loop collects the signatures of all scanned lines in order, or stops at the first bad one |
| `SignedNotes.ScansIff` | pkg/util/signed_note.go:175-179 | a line scans as a name and a word if and only if it is a dash, the name and the word with some space between each, and at most space at its end |
| `SignedNotes.CarriageReturnIsDropped` | pkg/util/signed_note.go:174-176 | a carriage return before the end of a line is not part of it |
| `SignedNotes.ParsePrint` | pkg/util/signed_note.go:131-204 | parsing undoes printing on every well-formed note |
| `SignedNotes.ParsedIsWellFormed` | pkg/util/signed_note.go:158-204 | whatever text is accepted, the note is well formed |
| `SignedNotes.RoundTripIffWellFormed` | pkg/util/signed_note.go:131-204 | a note survives printing and parsing if and only if it is well formed |
| `SignedNotes.ParsePrintParse` | pkg/util/signed_note.go:131-204 | parse, print, parse equals parse on every accepted input |
| `SignedNotes.ScannedAll` | pkg/util/signed_note.go:174-196 | every line is looked at if and only if none reaches 64 KiB |
| `SignedNotes.LongLineHidesTheRest` | pkg/util/signed_note.go:174-204 | a line of 64 KiB or more after a valid signature is dropped silently with everything behind it |
| `Checkpoints.CheckpointRecord.String` | pkg/util/checkpoint.go:45-52 | origin, decimal size, base64 hash and other lines, each ended by a newline |
| `Checkpoints.KnownCheckpoint` | pkg/util/checkpoint.go:45-52 | the printed form of one checkpoint, character by character |
| `Checkpoints.CheckpointRecord.UnmarshalCheckpoint` | pkg/util/checkpoint.go:71-102 | the checkpoint becomes the parsed one, and is unchanged with the parser's error otherwise |
| `Checkpoints.ParsesIff` | pkg/util/checkpoint.go:71-102 | text parses if and only if it is an origin, a decimal size below 2^64 and a hash in base64 on lines of their own, then anything |
| `Checkpoints.ParsesAs` | pkg/util/checkpoint.go:71-102 | and it parses to that origin, that number and those bytes |
| `Checkpoints.CollectLines` | pkg/util/checkpoint.go:93-100 | the loop collects the lines up to the first empty one |
| `Checkpoints.OtherContentEnds` | pkg/util/checkpoint.go:93-100 | other content is what comes before the next empty line, whatever follows it |
| `Checkpoints.ParsePrint` | pkg/util/checkpoint.go:45-102 | parsing undoes printing on every well-formed checkpoint |
| `Checkpoints.RoundTripIffWellFormed` | pkg/util/checkpoint.go:45-102 | a checkpoint survives printing and parsing if and only if its origin and other lines are non-empty lines |
| `Checkpoints.ParsePrintParse` | pkg/util/checkpoint.go:45-102 | parse, print, parse equals parse on every accepted input |
| `Checkpoints.StoredCheckpointRoundTrip` | pkg/util/checkpoint.go:134-145 | a signed checkpoint written as the text of its note reads back as the same checkpoint and note |
| `Checkpoints.CreateAndSignCheckpointMultiple` | pkg/util/checkpoint.go:169-195 | the text of the note over the log's checkpoint signed by all signers in order, or an error when there is none or one fails |
| `Checkpoints.PublishedIff` | pkg/util/checkpoint.go:169-195 | a checkpoint is published if and only if there is a signer and every signer signs its text and has a readable key |
| `Checkpoints.OriginNamesTree` | pkg/util/checkpoint.go:174-178 | the origin starts with the hostname, and the tree ID reads back from the rest of it |
| `Checkpoints.SignAllInOrder` | pkg/util/checkpoint.go:183-188 | one signature for each signer, in order, each over the same text |
| `Checkpoints.PublishedRoundTrip` | pkg/util/checkpoint.go:134-195 | a published text parses back to the same checkpoint and signatures if and only if the hostname is a word and every signature line is non-empty and below 64 KiB |
| `Checkpoints.PublishedVerifiesIff` | pkg/util/signed_note.go:71-106 | a key accepts a published note if and only if it accepts what the first signer with its hint signed |
| `Checkpoints.StrangerVerifiesNothing` | pkg/util/signed_note.go:71-106 | a key whose hint no signer has accepts no published note |
| `Checkpoints.PublishedVerifies` | pkg/util/signed_note.go:71-106 | the key of a signer with no earlier signer of its hint accepts the published note |
| `Checkpoints.PublishedVerifiesAll` | pkg/util/signed_note.go:112-123 | with pairwise distinct hints, all signers' keys together accept the published note |
| `SignerConfigs.NewMultipleFromConfig` | pkg/signer/signer.go:141-198 | plain signers in order with the batch signer inserted, or an error exactly when a load fails or the batch has no configuration |
| `SignerConfigs.MergedPositions` | pkg/signer/signer.go:141-198 | where every configured signer ends up: plain ones in order, shifted by one past the batch signer at the first cosigner's place, and each cosigner's key in the batch after the keys of the cosigners before it |
| `SignerConfigs.MergedIff` | pkg/signer/signer.go:119-198 | there are signers if and only if every entry of the list, or the single one without a list, loads, and for cosigners the settings are there and the batch signer starts |
| `SignerConfigs.FlushIsPositive` | pkg/signer/signer.go:178-188 | the flush interval is the configured one, or half a second when that is not positive; nothing else changes |
| `SignerConfigs.UnsetIff` | pkg/signer/signer.go:107-113 | only the empty configuration counts as unset |
| `Sharding.LogRanges.ResolveVirtualIndex` | pkg/sharding/ranges.go:186-197 | the loop finds the shard and leaf by going through the inactive shards with int64 subtraction |
| `Sharding.LogRanges.VirtualLogIndex` | pkg/sharding/log_index.go:18-43 | the loop adds up the lengths of the shards before the tree with int64 addition, or gives -1 |
| `Sharding.LogRanges.TotalInactiveLength` | pkg/sharding/ranges.go:214-220 | the int64 value of the sum of the inactive lengths |
| `Sharding.LogRanges.GetLogRangeByTreeID` | pkg/sharding/ranges.go:224-234 | the active shard, else the first inactive one with that tree ID, else an error |
| `Sharding.RangeOfIs` | pkg/sharding/ranges.go:224-234 | there is a range exactly for the trees of the shards: the active one for its tree, else the first inactive one |
| `Sharding.LogRanges.CompleteInitialization` | pkg/sharding/ranges.go:106-125 | lengths are written in place up to the first unreadable tree, and the roots are returned exactly when all were read |
| `Sharding.RootsMatchLengths` | pkg/sharding/ranges.go:106-125 | after a complete initialisation every shard has the length of its own recorded root |
| `Sharding.OnlyLengthsChange` | pkg/sharding/ranges.go:106-125 | reading lengths changes nothing else of a shard, and nothing at all from the first unreadable tree on |
| `Sharding.InitializeRange` | pkg/sharding/ranges.go:149-184 | succeeds exactly when something is configured, the signers load and every key prints; then one PEM key and one log ID for each signer in order, the first of each primary |
| `Sharding.IndexesAreBijective` | pkg/sharding/ranges.go:186-220 | every non-negative index resolves to an existing leaf whose virtual index it is, and to the active tree exactly from the total inactive length on |
| `Sharding.LeavesAreBijective` | pkg/sharding/log_index.go:18-43 | every existing leaf, empty shards or not, has a virtual index that resolves to it again |
| `Sharding.UnknownTree` | pkg/sharding/log_index.go:18-43 | a tree outside the shards has virtual index -1 |
| `Sharding.ComesBackIff` | pkg/sharding/ranges.go:186-197 | an index comes back if and only if the first shard with its tree ID starts where its own shard does |
| `Sharding.DuplicateTreesBreakIndexes` | pkg/sharding/log_index.go:18-43 | of two shards with one tree ID and different starts, the first index of the later one does not come back |
| `Sharding.IndexesComeBackIff` | pkg/sharding/ranges.go:186-197 | for all layouts with non-negative lengths, every index comes back if and only if no two shards share a tree ID with different starts, empty later shards aside |
| `Rotation.RunExtendsLog` | pkg/sharding/ranges.go:37-42 | over every run of appends and rotations each later virtual log extends each earlier one |
| `Rotation.ResolveIsLogEntry` | pkg/sharding/ranges.go:186-197 | at any time index i resolves to entry i of the virtual log |
| `Rotation.RotationNeverRenumbers` | pkg/sharding/ranges.go:186-197 | over every run of appends and rotations no entry's virtual index or resolved tree and leaf ever changes |
| `EntryIDs.EntryIDRoundTrip` | pkg/sharding/sharding.go:50-212 | an entry ID is built exactly for a writable tree ID and a 64-digit UUID, has 80 characters, and gives both parts back |
| `EntryIDs.PaddedAgain` | pkg/sharding/sharding.go:85-94 | a numeral of any width, read and written again with zeros to that width, is the same digits in lower case |
| `EntryIDs.EntryIDInjective` | pkg/sharding/sharding.go:50-118 | different tree and UUID pairs never share an entry ID |
| `EntryIDs.UUIDIsHex` | pkg/sharding/sharding.go:98-138 | a UUID read from any ID is 64 hexadecimal digits |
| `EntryIDs.ZeroTreeIDIsForgiven` | pkg/sharding/sharding.go:98-212 | a tree ID of zero is let through when the UUID is read, and refused everywhere else |
| `EntryIDs.OtherLengthsAreRefused` | pkg/sharding/sharding.go:98-212 | an ID that has neither 64 nor 80 characters is refused by every reader |
| `ClientManagers.ClientManager.CheckClientSection` | pkg/trillianclient/manager.go:104-113 | the first section of a call: refused after shutdown, else the cached client if there is one |
| `ClientManagers.ClientManager.DialConnSection` | pkg/trillianclient/manager.go:85-99 | under the write lock: an existing connection again, else a fresh one recorded, else nothing when dialling fails |
| `ClientManagers.ClientManager.PublishSection` | pkg/trillianclient/manager.go:120-132 | under the write lock: refused after shutdown, else the client another call created, else a new one recorded |
| `ClientManagers.ClientManager.GetTrillianClient` | pkg/trillianclient/manager.go:103-133 | without interference a client comes back exactly when there is no shutdown and a cached client, a cached connection or a dial that works; it is for the tree, over the configuration of that tree, and cached |
| `ClientManagers.ClientManager.Close` | pkg/trillianclient/manager.go:220-238 | the flag is raised, both caches are emptied and every cached connection is closed |
| `ClientManagers.StepKeepsInv` | pkg/trillianclient/manager.go:70-133 | every step of every interleaving of calls keeps the invariant of caches, dials and calls |
| `ClientManagers.CachedClientsAreLive` | pkg/trillianclient/manager.go:103-133 | in every reachable state each cached client has its tree's ID and an open connection dialled with that tree's configuration |
| `ClientManagers.OneDialPerConfig` | pkg/trillianclient/manager.go:70-100 | in every reachable state before the connections are closed no configuration was dialled twice |
| `ClientManagers.OneClientPerTree` | pkg/trillianclient/manager.go:103-133 | all calls for a tree that return a client return the same one |
| `ClientManagers.CallsFailOnlyFor` | pkg/trillianclient/manager.go:103-133 | over every interleaving a call fails only because of shutdown or because its own dial failed |
| `ClientManagers.CallCanGoOn` | pkg/trillianclient/manager.go:103-133 | a call that has not ended can always go on |
| `ClientManagers.CallGetsAConnection` | pkg/trillianclient/manager.go:70-100 | a dial that works, or a connection that is there, takes the call on to publishing |
| `ClientManagers.CallReturnsItsClient` | pkg/trillianclient/manager.go:120-132 | before shutdown, publishing returns the client that is then cached for the tree |
| `ClientManagers.NothingAfterShutdown` | pkg/trillianclient/manager.go:220-238 | after shutdown the client cache stays empty in every continuation and no call that starts then returns a client |
| `ClientManagers.ConnectionsStayClosedIff` | pkg/trillianclient/manager.go:70-100 | after `Close` the connections stay closed in every continuation if and only if no call is between its first check and its dial |
| `ClientManagers.CloseCanLeakAConnection` | pkg/trillianclient/manager.go:220-238 | a run in which `Close` completes and a connection is open afterwards |
| `TrillianClients.ProofResultVerified` | pkg/trillianclient/trillian_client.go:299-355 | a proof result holds only proofs that verified for the hash against the very root it returns |
| `TrillianClients.HonestProofPasses` | pkg/trillianclient/trillian_client.go:299-355 | the proof of an entry of an honest log passes and comes back with the root it was proved against |
| `TrillianClients.MissIsNotFound` | pkg/trillianclient/trillian_client.go:299-355 | an empty log, or one that knows no such leaf, gives not found |
| `TrillianClients.ByHashIsTrustworthy` | pkg/trillianclient/trillian_client.go:190-220 | whatever the server answers, there is a result exactly when there is no error, and then the leaf has the requested hash and the proof verified against the returned root |
| `TrillianClients.ByHashIff` | pkg/trillianclient/trillian_client.go:190-220 | a lookup by hash succeeds if and only if the tree is not empty, one proof comes and verifies and one leaf of that hash comes; it is not found if and only if the server says so |
| `TrillianClients.HonestByHash` | pkg/trillianclient/trillian_client.go:190-220 | an entry of an honest log is found by its hash |
| `TrillianClients.ByHashIsInTheLog` | pkg/trillianclient/trillian_client.go:190-220 | the requester's own body is the entry at the proof's index of the log behind the returned root, or the proof yields a hash collision; nothing is said of the returned value |
| `TrillianClients.AnyValuePasses` | pkg/trillianclient/trillian_client.go:377-420 | any bytes in place of the returned value give the same successful answer |
| `TrillianClients.BytesAreInTheLogIff` | pkg/trillianclient/trillian_client.go:299-355 | for a trustworthy result, bytes are the entry of the log at the proof's index if and only if they hash to the trusted hash, or a hash collision shows |
| `TrillianClients.ValueIsInTheLogIff` | pkg/trillianclient/trillian_client.go:377-420 | the returned value is the entry of the log at the proof's index if and only if it hashes to the requested hash, or a hash collision shows |
| `TrillianClients.ByIndexIsVerifiedIff` | pkg/trillianclient/trillian_client.go:222-268 | a by-index result verified at the requested index; no error without a result exactly for an answer without a proof; no answer at all exactly for a proof without a leaf |
| `TrillianClients.ByIndexIff` | pkg/trillianclient/trillian_client.go:222-268 | a lookup by index succeeds if and only if the answer has no error and its proof verifies at that index; server errors come back as they are |
| `TrillianClients.HonestByIndex` | pkg/trillianclient/trillian_client.go:222-268 | an entry of an honest log is found at its index |
| `TrillianClients.WaitEndsWell` | pkg/trillianclient/trillian_client.go:130-147 | the wait loop is left only with a proof, an error other than not found, or a failed wait |
| `TrillianClients.WaitGoesOn` | pkg/trillianclient/trillian_client.go:130-147 | while the tree is empty or the leaf not in it, each new root starts another round |
| `TrillianClients.WaitTerminates` | pkg/trillianclient/trillian_client.go:130-147 | if updates grow the root and the leaf is integrated by size n, the loop ends within n minus the root size plus one rounds |
| `TrillianClients.GrowthIsEnough` | pkg/trillianclient/trillian_client.go:130-147 | if updates only grow the root, the loop ends: no root has 2^64 leaves |
| `TrillianClients.NewerRootsEndTheWait` | pkg/trillianclient/trillian_client.go:130-147 | if each updated root has a later timestamp, even at the same size, the loop ends |
| `TrillianClients.WaitForInclusion` | pkg/trillianclient/trillian_client.go:119-148 | whenever the loop ends at all, it answers what its rounds determine |
| `TrillianClients.AddLeaf` | pkg/trillianclient/trillian_client.go:89-188 | whenever the call ends at all, it answers, early errors included, what queueing, waiting and fetching determine |
| `TrillianClients.AddLeafEnds` | pkg/trillianclient/trillian_client.go:89-188 | the call ends if updates grow the root or bring later timestamps |
| `TrillianClients.AddLeafIsTrustworthy` | pkg/trillianclient/trillian_client.go:89-188 | for arbitrary answers a result carries a leaf with the queued hash and a proof verified against the returned root; no error without a result exactly for a leaf refused by its queue status |
| `TrillianClients.HonestAppend` | pkg/trillianclient/trillian_client.go:89-188 | a leaf queued at an honest log is added: whatever number of rounds it takes, the call returns the integrated leaf with its proof and root |
| `TrillianClients.WaitStartsIff` | pkg/trillianclient/trillian_client.go:89-118 | the wait starts if and only if the leaf is queued without an error and a status other than OK, and the first root decodes |
| `TrillianClients.EarlyErrorsComeBack` | pkg/trillianclient/trillian_client.go:89-118 | an error of the queue or of the first root is the error of the call |
| `TrillianClients.DelayedAppendFails` | pkg/trillianclient/trillian_client.go:119-129 | a call that ends during the initial delay ends with that error and the queued leaf |
| `TrillianClients.FailedWaitEnds` | pkg/trillianclient/trillian_client.go:130-147 | a wait for a root that fails ends the call with that error |
| `TrillianClients.SubmittedIsStoredIff` | pkg/trillianclient/trillian_client.go:89-188 | the entry of the log at the proof's index is what was submitted if and only if the log server queued it under its own hash, or a hash collision shows |
| `Verify.DecodeHashes` | pkg/verify/verify.go:146-153 | all hashes decoded in order, or failure when one is not hexadecimal |
| `Verify.VerifyInclusion` | pkg/verify/verify.go:141-177 | accepts exactly when hashes, root and body decode and the proof is accepted for the body's leaf hash at the cast index and size |
| `Verify.AcceptedBodyIsInLog` | pkg/verify/verify.go:141-177 | in every log with the proof's root, the body of an accepted entry is the entry its claimed index and size lead to, at the claimed index if and only if both sizes give the same `inner`, or a hash collision shows |
| `Verify.AcceptedBodyIsAtItsIndex` | pkg/verify/verify.go:141-177 | with the size of that log, the body is its entry at the claimed index with its audit path, or a hash collision shows |
| `Verify.SignedLogHoldsBody` | pkg/verify/verify.go:224-241 | the same for the log behind the checkpoint the key signed, when the two roots are the same bytes; sizes are never compared, so the index is right if and only if the signed size gives the same `inner` |
| `Verify.AcceptedTimestampVerifies` | pkg/verify/verify.go:182-218 | an accepted entry has a signed entry timestamp, and the key verifies it over the object of its own body, time, index and log ID |
| `Verify.AcceptedCheckpointVerifies` | pkg/verify/verify.go:116-135 | an accepted entry has a checkpoint whose first signature with the key's hint verifies over its text, and whose root compares equal to the proof's |
| `Verify.ProveConsistency` | pkg/verify/verify.go:40-76 | refuses an empty old tree and a shrunk one, compares roots of equal sizes, and verifies the server's proof otherwise |
| `Verify.ConsistentNeverShrinks` | pkg/verify/verify.go:40-76 | despite the casts to int64 an accepted checkpoint is never smaller as uint64, and of one size only the same root passes |
| `Verify.ConsistentExtends` | pkg/verify/verify.go:40-76 | the log behind the old checkpoint is a prefix of the log behind the new one, or the proof yields a hash collision |
| `Entries.SignEntryMultiple` | pkg/api/entries.go:69-93 | one signature of the canonical payload for each signer with the log IDs, or an error when there is no signer, the counts differ or one fails |
| `Entries.SignPayloadInOrder` | pkg/api/entries.go:69-93 | signature i is what signer i makes of the payload |
| `Entries.AdditionalTimestamps` | pkg/api/entries.go:197-208 | the signatures after the first, each with the log ID at its own position |
| `Entries.AdditionalTimestampsPaired` | pkg/api/entries.go:197-208 | every additional timestamp carries the log ID printed from the key of the signer that made it, and that key accepts it |
| `Entries.FetchAttestation` | pkg/api/entries.go:157-191 | by the entry's own key if it has one, else or on failure by its UUID; an error only for a body that does not parse |
| `Entries.OwnKeyWins` | pkg/api/entries.go:157-191 | what is stored under the entry's own key wins, its UUID counts only without it, and there is an error only for a body that does not parse |
| `Entries.LogEntryFromLeaf` | pkg/api/entries.go:96-213 | the entry, its ID and its attestation for a leaf of a shard, with the cached checkpoint if there is one, or an error when root, shard, signer, ID or attested body fails |
| `Entries.EntryOfIff` | pkg/api/entries.go:96-213 | an entry comes back if and only if the tree is a shard with a writable ID, there are as many log IDs as signers and at least one, all sign the payload and, unless one is cached, the checkpoint, and the leaf hash has 32 bytes |
| `Entries.CreateLogEntry` | pkg/api/entries.go:388-499 | the same for a fresh leaf of the active shard, never with a cached checkpoint |
| `Entries.BuildCache` | pkg/api/api.go:156-167 | a signed checkpoint text for every inactive shard, or an error when a root is missing or a signer fails |
| `Entries.CacheIff` | pkg/api/api.go:156-167 | the cache is built if and only if every shard has a root and signers that all sign, and it holds those shards only |
| `Entries.CachedText` | pkg/api/api.go:156-167 | each shard is cached under its own tree ID with a checkpoint over its own length and root |
| `Entries.StartupText` | pkg/api/api.go:156-167 | after start-up an inactive shard is cached under its tree ID with a checkpoint over the root read for it |
| `Entries.ActiveIsNotCached` | pkg/api/api.go:156-167 | the active tree is never in the cache |
| `Entries.TextBindsRoot` | pkg/util/checkpoint.go:45-52 | two checkpoints of a tree have one text if and only if they have one size and root |
| `Entries.TextBindsTree` | pkg/util/checkpoint.go:45-52 | two checkpoints of a hostname have one text if and only if they have one tree, size and root |
| `Entries.CacheAgreesIffFrozen` | pkg/api/entries.go:128-147 | the cached note has the text of a fresh checkpoint at the proof's root if and only if the shard has not changed since it was read |
| `EndToEnd.SamePayload` | pkg/verify/verify.go:190-211 | the four members the client marshals are the very object the server signed |
| `EndToEnd.EntryCarries` | pkg/api/entries.go:96-213 | every assembled entry carries the time, the index and the log ID of its shard, and each of its timestamps is the signature over them by the signer whose log ID stands beside it |
| `EndToEnd.EmptySignatureIsRefused` | pkg/api/entries.go:197-208 | an empty primary signature is left out of the entry, which no key then accepts |
| `EndToEnd.AcceptedIsTheServers` | pkg/verify/verify.go:182-241 | under a key that verifies only the server's payloads, and a canonical form that loses nothing, an accepted entry has the body, time, index and log ID of one of the server's leaves |
| `EndToEnd.CheckpointOfPublished` | pkg/verify/verify.go:116-135 | a published checkpoint is accepted under its first signer's key exactly when the roots compare equal |
| `EndToEnd.AssembledIsAcceptedIff` | pkg/api/entries.go:96-213 | for every honest log, shard layout and signer list, the assembled entry is accepted under the shard's primary key if and only if the leaf is non-empty and the checkpoint commits to the proof's root; its ID and index lead back to the leaf |
| `EndToEnd.FreshEntryIsAccepted` | pkg/verify/verify.go:224-241 | with a checkpoint signed now the entry is accepted if and only if the leaf is non-empty |
| `EndToEnd.CachedEntryIsAccepted` | pkg/api/entries.go:128-147 | with a cached checkpoint the entry is accepted if and only if the leaf is non-empty and the root read at start-up still compares equal |
| `EndToEnd.EntryByIndexKeepsItsIndex` | pkg/api/entries.go:717-743 | an entry assembled for the leaf a virtual index resolves to carries that very index |
| `Retrieval.RetrieveLogEntry` | pkg/api/entries.go:748-781 | the loop over the shards answers from the tree the ID names, or from the first shard that does not miss the UUID |
| `Retrieval.SearchEndsAtFirst` | pkg/api/entries.go:763-777 | the search ends at the first shard that does not miss the entry, and misses it only when all shards do |
| `Retrieval.RetrievedIsRequested` | pkg/api/entries.go:748-828 | whatever the log servers answer, an entry that comes back has the leaf hash and tree asked for and a proof verified for that hash |
| `Retrieval.ClientAgreesIff` | cmd/rekor-cli/app/get.go:179-217 | the client's comparison of the returned ID with the requested one passes if and only if the request is in the form the server writes |
| `Retrieval.ReceivedIsCanonicalIff` | cmd/rekor-cli/app/pflags.go:292-302 | an ID of 64 or 80 hexadecimal digits is in the form the server writes if and only if it has no upper-case digit |
| `Retrieval.UpperCaseIsRefusedIff` | cmd/rekor-cli/app/get.go:179-217 | of all requests that the flag and the request patterns let through, the client takes the entry found for it if and only if the request has no upper-case digit |
| `Retrieval.BodyMatchesIff` | cmd/rekor-cli/app/verify.go:206-221 | the client's body check passes on a found entry if and only if the value the log server returned is non-empty and hashes to the hash asked for |
| `Retrieval.MatchingBodyIsInTheLog` | cmd/rekor-cli/app/verify.go:206-221 | so a body that passes the check is the entry at the proof's index of the log behind the root, or a hash collision shows |
| `Retrieval.AssembledIsRetrieved` | pkg/api/entries.go:783-828 | an assembled entry of an honest log is found as the very same entry by every ID that names its tree and decodes to its leaf hash |
| `Retrieval.PlainIsRetrieved` | pkg/api/entries.go:763-777 | asked for by its plain UUID in any letter case, an entry of an honest log is found as the very same entry when every shard tried before its own misses it |
| `Retrieval.FoundInAnyShard` | pkg/api/entries.go:763-777 | asked for by its plain UUID, an entry of an honest log is found in whichever shard it is, when the servers asked before say they do not have it |
| `Retrieval.MissedEverywhere` | pkg/api/entries.go:748-828 | what no shard has is missing, and so is what is asked for in a tree that is no shard |
| `Retrieval.MissingIff` | pkg/api/entries.go:783-828 | an entry is missing from a tree if and only if there is no such tree or its server says so: no failure passes for a missing entry |
| `Retrieval.ZeroTreeIsRefused` | pkg/api/entries.go:748-762 | a request with tree ID zero is refused; its UUID alone is searched for in all shards, the active one first |
| `Retrieval.OwnIDAsks` | pkg/sharding/sharding.go:50-118 | the ID the server writes is one of these |
| `Retrieval.AnyCaseIsFound` | cmd/rekor-cli/app/get.go:179-217 | every upper- and lower-case spelling of the ID of an entry of an honest log is received and found as that entry, and taken by the client if and only if it has no upper-case digit |
| `Retrieval.UpperIDIsFoundAndRefused` | cmd/rekor-cli/app/get.go:179-217 | an ID with a letter among its digits, typed in upper case, is received, found by the server and then refused by the client |
| `Retrieval.RetrievedEntryVerifies` | cmd/rekor-cli/app/verify.go:166-199 | looked up by its ID, the entry of a leaf of an honest log, with a cached or fresh checkpoint, passes the whole verify command if and only if the leaf is non-empty and the checkpoint commits to the proof's root |
| `Retrieval.InactiveEntryVerifies` | pkg/api/entries.go:128-147 | for an inactive shard after start-up: if and only if the leaf is non-empty and the root read then still compares equal |
| `Retrieval.ByIndexIsRequestedIff` | pkg/api/entries.go:717-743 | an entry found by index was proved at the leaf the index resolves to, and carries that index if and only if the server labelled the leaf with that position |
| `Retrieval.AssembledIsAtItsIndex` | pkg/api/entries.go:717-743 | an entry of an honest log is found at its virtual index, as the very entry that its ID finds, and carries that index |
| `Retrieval.RefusedByIndex` | pkg/api/entries.go:725-738 | not found, out of range and invalid argument make an index missing; every other error is a failure |
| `Retrieval.UnsignedIsAFailure` | pkg/api/entries.go:738-743 | an entry that is there but cannot be signed is a failure |
| `Retrieval.ByIndexNoResultIff` | pkg/api/entries.go:725-738 | exactly which answers have no branch: success without a proof, and a proof without a leaf |
| `VerifyCommand.PrintChain` | cmd/rekor-cli/app/verify.go:62-78 | the loop prints one line for each sibling and ends with the hash of the chain |
| `VerifyCommand.KnownStep` | cmd/rekor-cli/app/verify.go:75-76 | one printed line of the chain, character by character |
| `VerifyCommand.String` | cmd/rekor-cli/app/verify.go:50-82 | the header, the chain's lines, and the computed and expected roots |
| `VerifyCommand.PrintedRootsAreEqual` | cmd/rekor-cli/app/verify.go:166-199 | every output the command returns prints a computed root equal as bytes, and as lower-case digits, to the expected root |
| `VerifyCommand.PassedIsTheRequest` | cmd/rekor-cli/app/verify.go:166-199 | whatever the server answered, an entry that passes has the requested UUID, which is the hash of its own body, the requested tree if one was named, and was accepted under the key of its tree |
| `VerifyCommand.SameEntryIs` | cmd/rekor-cli/app/get.go:179-217 | a plain UUID on either side is compared by itself, and with a tree on both sides the trees must agree as well |
| `VerifyCommand.ProposedEntryIsTheBody` | cmd/rekor-cli/app/verify.go:227-246 | with an artifact at hand the verified entry is the user's own, or the two bodies collide |
| `VerifyCommand.HonestEntryPasses` | cmd/rekor-cli/app/verify.go:166-199 | an accepted entry under its own ID passes every check of the command and gives its output |
| `VerifyCommand.AssembledPassesIff` | cmd/rekor-cli/app/verify.go:166-199 | the entry of a leaf of an honest log, with a cached or fresh checkpoint, passes the whole command if and only if the leaf is non-empty and the checkpoint commits to the proof's root |
| `VerifyCommand.FreshEntryPasses` | cmd/rekor-cli/app/verify.go:166-199 | a non-empty leaf of an honest log, assembled with a fresh checkpoint, passes the whole command |
| `LogInfo.Client.VerifyTree` | cmd/rekor-cli/app/log_info.go:126-162 | succeeds exactly for a parsed, signed head consistent with the stored one, and then, when storing is on, stores it under the tree ID and the server URL, each write being done, refused or torn |
| `LogInfo.StoredByCall` | cmd/rekor-cli/app/log_info.go:126-162 | what a call leaves under each key: the file as it was without success, without storing or for an empty log, else the head under the server URL and the tree ID as far as the writes went through |
| `LogInfo.SucceedsIsSigned` | cmd/rekor-cli/app/log_info.go:126-162 | the head of a call that succeeds carries a signature over its text that the call's key verifies |
| `LogInfo.Client.VerifyTrees` | cmd/rekor-cli/app/log_info.go:110-124 | true exactly when every shard succeeds in turn; otherwise it stops at the first failing shard, keeping what the shards before it stored |
| `LogInfo.DumpThenLoad` | cmd/rekor-cli/app/state/state.go:29-74 | what is written is loaded again as the same checkpoint and no other key changes, from any earlier file; a refused write changes nothing and a torn one loses every key |
| `LogInfo.CallKeepsOrReplaces` | cmd/rekor-cli/app/log_info.go:126-162 | one call without a torn write leaves a tree's checkpoint alone or replaces it by a verified, consistent one |
| `LogInfo.StoredNeverShrinks` | cmd/rekor-cli/app/log_info.go:126-162 | over every run with any answers, without torn writes, in which calls with the key as server URL name no tree or the key itself, what is stored under the key never shrinks, and of one size there is one root |
| `LogInfo.RollbackIsRefused` | cmd/rekor-cli/app/log_info.go:126-162 | once a call has stored the head of a tree, no later call of the run succeeds for it with a smaller head, or with one of the same size and another root |
| `LogInfo.StoredWasVerified` | cmd/rekor-cli/app/log_info.go:126-162 | over such a run each checkpoint stored under the key was signature-verified by the call that stored it |
| `LogInfo.StoredChainIsAppendOnly` | cmd/rekor-cli/app/log_info.go:126-162 | over such a run the logs behind the stored checkpoints extend each other, or an accepted proof yields a hash collision |
| `LogInfo.SharedKeyIsOverwritten` | cmd/rekor-cli/app/log_info.go:151-160 | any other successful call with the key as server URL overwrites what is stored there, from every file, without looking at it |
| `LogInfo.TornWriteForgets` | cmd/rekor-cli/app/state/state.go:29-67 | a torn write loses every key, and the next verified head of any size is then taken for any tree |
| `LogInfo.ChainHoldsIff` | cmd/rekor-cli/app/log_info.go:126-162 | the stored chain holds over every run of given shapes if and only if each call whose server URL is the key names no tree or the key itself and no write may be torn |
| `LogInfo.HonestHeadSucceeds` | cmd/rekor-cli/app/log_info.go:126-162 | the published head of a log that only grew since the stored one, with the RFC 6962 proof in hexadecimal, is never refused |
| `Backfill.RedisClient.IdempotentAddToIndex` | cmd/backfill-index/main.go:376-387 | all occurrences removed, one pushed in front; nothing in a dry run or when the remove fails, only the remove when the push fails |
| `Backfill.NewestFirst` | cmd/backfill-index/main.go:376-387 | what was added last stands first in its list |
| `Backfill.WithoutFilters` | cmd/backfill-index/main.go:376-387 | removing a UUID keeps the order of all others |
| `Backfill.RedisClient.AddKeys` | cmd/backfill-index/main.go:319-337 | the keys of an entry in order, going on after errors up to the one beyond the limit of five |
| `Backfill.RedisClient.AddEntries` | cmd/backfill-index/main.go:307-338 | a worker alone adds all pairs of the entries that parse, in order, or those up to the error beyond the limit |
| `Backfill.PairsOfIff` | cmd/backfill-index/main.go:307-338 | a worker adds exactly the pairs of an index key and the UUID of an entry that parses |
| `Backfill.AloneIsARun` | cmd/backfill-index/main.go:307-338 | a worker alone, when nothing is refused, is one of the interleavings |
| `Backfill.AloneIsAFaultyRun` | cmd/backfill-index/main.go:319-337 | a worker alone, with any replies, is one of the runs with refusals |
| `Backfill.StepKeepsInv` | cmd/backfill-index/main.go:376-387 | every remove or push of every worker keeps what the lists must hold of each pair |
| `Backfill.EachPairOnce` | cmd/backfill-index/main.go:279-347 | for every complete interleaving each processed pair is listed exactly once and every other pair as often as before |
| `Backfill.OrderDoesNotMatter` | cmd/backfill-index/main.go:279-347 | two interleavings end with the same multiset in every list |
| `Backfill.BackfillIsIdempotent` | cmd/backfill-index/main.go:279-347 | running the backfill again, in any interleaving, changes no list as a multiset |
| `Backfill.CountIsExact` | cmd/backfill-index/main.go:319-337 | whatever commands are refused and wherever workers stop, a pair is listed once if the last command that took effect on it was a push, not at all if it was a remove, and as before if there was none |
| `Backfill.NeverDoubled` | cmd/backfill-index/main.go:319-337 | so no pair is listed twice that was not before, and pairs of no worker stay as they were |
| `Backfill.RerunRepairs` | cmd/backfill-index/main.go:319-337 | a complete run after such a run ends as if nothing had been refused |
| `Backfill.DistinctEntriesAreDisjoint` | cmd/backfill-index/main.go:307-338 | workers with entries of different UUIDs share no pair |
| `Backfill.EachPairOnceIffDisjoint` | cmd/backfill-index/main.go:279-347 | every interleaving lists every processed pair exactly once if and only if no two workers share a pair |

## Left out

- Cryptography, key management services, TLS and gRPC transport: signing, verifying, loading and dialling are parameters.
- JSON text and the internals of RFC 8785: an entry is its members, and canonicalization is a function of the object.
- UTF-8: text is a sequence of characters; only the 64 KiB line limit counts encoded bytes.
- Nil-pointer panics on missing members of a response, except the two that `Retrieval.ByIndexNoResultIff` names: otherwise an RPC without an error has a response with its signed root, queued leaf and list elements, and an entry's index, size, root and time are present.
- Event publishing, metrics, logging and the storing of attestations when an entry is created: side effects that do not change the entry returned. The attestation that `logEntryFromLeaf` returns is outside what is signed and checked, so the lookups in `Retrieval` are for a server with attestation storage off.
- Proposed entries, their types and their canonical form (pkg/types, pkg/pki): an artifact enters as its canonical bytes.
- HTTP handlers, swagger models and request validation (pkg/generated), search by many keys (pkg/api/entries.go:605-713).
- Reading shard and signing configuration files (`NewLogRanges`): ranges and configurations are inputs.
- `VerifyCurrentCheckpoint`: the same checks as `verifyTree` without the stored state.
- The MySQL backfill: one statement for each pair, which only adds easy members. The lists of failed indexes sent through `resultChan`, whose reader is not synchronised, and a refused command that took effect all the same.
- Other writers of the state file or the search index while a run goes on.
- EndToEnd.CheckpointOfPublished: of the case-insensitive byte comparison it uses only that equal bytes compare equal.
- TrillianClients.AddLeaf: for calls that end; that the loop ends rests on the library, whose wait for an update must bring a larger or a newer root (`TrillianClients.AddLeafEnds`).
- Consistency.VerifyConsistency: starts from a non-empty tree, as its only caller does.
- Text of error messages: errors are told apart only where the code does.
