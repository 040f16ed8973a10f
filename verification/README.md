# Verification of the Tinfoil client's hard core

A Dafny model of six parts of the Tinfoil Rust client, with proofs that they do
what the code, its comments and the standards behind it promise. Each part is
modelled with the branches, edge cases, error cases and constants of its code.

* **Merkle proofs** (`Bits`, `Rfc6962`, `Collisions`, `ProofVerification`,
  `MerkleCorrectness`, `MerkleSoundness`, `MerkleErrors`). The verifier works bit by bit on 64-bit
  sizes; section 2.1 of RFC 6962 defines trees, audit paths and consistency proofs
  by recursion. The bit form is proved to refine the recursive one. Nothing is
  assumed of the hash. Where soundness leaves a collision as the way out, a
  function of the tree and the accepted proofs computes the two inputs, down to
  two byte strings with one digest. Both directions are for every size below 2^64.
  Shifts take their amount modulo 64, as optimised builds do.
* **Adding the user cache secret** (`JsonString`, `JsonSpelling`, `JsonGrammar`,
  `JsonScan`, `JsonScanner`, `JsonObject`, `UserCacheSecret`). RFC 8259 as syntax
  trees that keep every byte; the scanner's loops; the splice; and the insertion
  into a decoded body. Splicing the bytes is proved to refine inserting into the
  map, and decoding a string to read exactly the spellings of its characters.
* **The EHBP channel** (`Ehbp`, `EhbpProtocol`, `EhbpProgress`, `SecureClients`). The shared
  channel as a class, and the protocol of senders, refreshes, re-verification,
  revocation and cancellation as a state machine in which no step spans an await
  or accesses the channel twice. A step may take or give back the refresh lock
  together with its channel access: `LockVerify` is the lock and the revocation,
  `EndVerify` the new channel, the pinned client, the refresher and the unlock.
  That loses no run: there is no await in between, and what other tasks do there
  (reading or changing the channel) neither sees nor affects the lock, the
  refresher, which is read under the lock only, or the client's fields, to which
  `verify` has exclusive access; so it can as well come before or after the step.
  Safety is proved for all runs with fewer than 2^64 changes of the channel; and
  beside it what is achieved: a refresh that nobody disturbs installs its key and
  retries, whoever has been overtaken retries, and nobody is ever stuck.
* **The event-stream decoder** (`Unicode`, `Utf8`, `Lines`, `WhiteSpace`,
  `SseStream`, `SseBlock`, `SseEvents`). Valid UTF-8 and white space are proved
  against the encoding of Unicode scalar values. Carry of incomplete UTF-8 and incomplete events over
  chunks, with the size limit, and, for every stream of bytes, the exact condition
  under which the way of cutting it up makes no difference.
* **First use of the secret file** (`SecretFile`). Any number of processes that
  write a temporary file and link it, with file-system errors and crashes; what
  each of them reports is determined exactly, over all runs.
* **Two codecs** (`Checkpoints` with `Base64` and `Decimal`, `Dcode` with
  `Base32`). Signed checkpoints, and values cut into DNS names.

## Where the code falls short of its promise

* `InclusionComplete`, `ConsistencyComplete`: above 2^63 entries a shift by 64 is
  masked to a shift by 0, and honest proofs for the lower half of the tree are
  refused for their size. Up to 2^63 entries all honest proofs are accepted.
* `SpliceRefinesInsertion`, `TwiceEmptyDiffers`: when the key is repeated and its
  last value is the empty string, the splice sends the body unchanged, while the
  relaxed path inserts the secret. For all other objects the two agree.
* `DropVerifyExact`, `DroppedWhileWaiting`: a call of `verify` that is dropped
  while it waits for the refresh lock leaves the client verified; dropped any
  later, it leaves it unverified.
* `ReportExact`, `RaceLost`: a process that finds no secret file when it opens the
  directory and finds one when it checks, because another process has just linked
  it, keeps a secret in memory although a persisted one exists. Apart from this
  race, errors, and a file that was blank or no text from the start, every process
  reports the persisted secret.
* `ChunkingExact`: two things depend on where the stream is cut. An event within
  two bytes of the size limit passes or fails with the cut of its separator. And
  invalid bytes suppress the events that arrive in one chunk with them, but not
  those in earlier chunks (`InvalidByteDiffers`, `InvalidBehindEvents`). All ways
  of cutting up a stream agree if and only if neither makes a difference in it.

## Reading the proofs

`hide` at the head of a proof keeps definitions that it does not need from the
solver. Functions as parameters stand for library code: `hash` for the digest,
`decode` for JSON, `usable` for the keys the sealing library accepts.

## Model

| member | source | states |
|---|---|---|
| ProofVerification.InnerProofSizeIs | src/verifier/sigstore/merkle/proof_verification.rs:237-239 | the number of inner levels is the bit length of `index ^ (size - 1)` and at most 64 |
| ProofVerification.InnerExceedsShift | src/verifier/sigstore/merkle/proof_verification.rs:147-149 | for all sizes 0 < old < new the subtraction `inner - shift` does not underflow |
| Collisions.RootBinds | src/verifier/sigstore/merkle/rfc6962.rs:37-52 | equal tree roots have equal entry lists, of equal length, or `RootCollision`, which walks down the two trees, ends at two different inputs with one hash |
| Collisions.CollisionOfBytes | src/verifier/sigstore/merkle/rfc6962.rs:37-52 | with the domain-separating prefixes, a collision between leaves, nodes and the empty tree is one of the byte hash, at the two byte strings that were hashed, and conversely |
| Collisions.FreeHasherHasNone | src/verifier/sigstore/merkle/rfc6962.rs:37-52 | the hasher that builds terms has no collision at all, so the alternative in the soundness results can be excluded |
| MerkleCorrectness.DecompExact | src/verifier/sigstore/merkle/proof_verification.rs:229-239 | the decomposition is the exact one if and only if the size is at most 2^63, the index at least 2^63, or the index 0 |
| MerkleCorrectness.ProofLength | src/verifier/sigstore/merkle/proof_verification.rs:92-103 | inner + border is the length of the recursive audit path and at most ceil(log2 n) |
| MerkleCorrectness.PerfectInclusion | src/verifier/sigstore/merkle/proof_verification.rs:186-198 | in a complete tree `chain_inner` over the recursive audit path gives the recursive root |
| MerkleCorrectness.AuditPathFolds | src/verifier/sigstore/merkle/proof_verification.rs:83-105 | in every tree `chain_inner` and then `chain_border_right` over the recursive audit path give the recursive root |
| MerkleCorrectness.InclusionComplete | src/verifier/sigstore/merkle/proof_verification.rs:60-105 | the recursive audit path is accepted exactly on the stated sizes, and otherwise refused for its size |
| MerkleSoundness.InclusionSound | src/verifier/sigstore/merkle/proof_verification.rs:60-105 | an accepted proof has the true leaf hash and is the recursive audit path, or `InclusionCollision`, computed from the list and the proof, is a collision; for every size below 2^64 |
| MerkleSoundness.InclusionBindsEntry | src/verifier/sigstore/merkle/proof_verification.rs:60-78 | an accepted proof for an entry makes it the entry at that index, or `EntryCollision` is a collision |
| MerkleSoundness.InclusionExact | src/verifier/sigstore/merkle/proof_verification.rs:60-105 | any leaf hash and proof are accepted if and only if they are the honest ones and the size condition of completeness holds, unless `InclusionCollision` is a collision |
| MerkleCorrectness.PerfectConsistency | src/verifier/sigstore/merkle/proof_verification.rs:186-214 | in a complete tree `chain_inner` and `chain_inner_right` over the recursive proof give the new and the old root |
| MerkleCorrectness.ConsistencyFolds | src/verifier/sigstore/merkle/proof_verification.rs:147-179 | the same for every tree, with the border |
| MerkleCorrectness.ConsistencyComplete | src/verifier/sigstore/merkle/proof_verification.rs:110-180 | the recursive consistency proof is accepted exactly on the stated sizes, and otherwise refused for its size |
| MerkleSoundness.ConsistencySound | src/verifier/sigstore/merkle/proof_verification.rs:110-180 | an accepted proof makes the old root the root of the first m entries and is the recursive proof, or `ConsistencyCollision` is a collision; for every size below 2^64 |
| MerkleSoundness.ConsistencyExact | src/verifier/sigstore/merkle/proof_verification.rs:110-180 | any old size, old root and proof are accepted if and only if they are the honest ones, the edge cases included, and the size condition holds, unless `ConsistencyCollision` is a collision |
| MerkleSoundness.ConsistencyAppendOnly | src/verifier/sigstore/merkle/proof_verification.rs:110-180 | an accepted proof between the roots of two lists makes the first a prefix of the second, or `AppendCollision` is a collision |
| MerkleSoundness.LogVerified | src/verifier/sigstore/merkle/proof_verification.rs:60-180 | with the standard's hasher, an accepted consistency and an accepted inclusion proof make the old list a prefix and the entry the one at its index, or `LogCollision`, computed from the lists, the proofs and the entry, gives two different byte strings with one digest |
| MerkleErrors.InclusionErrors | src/verifier/sigstore/merkle/proof_verification.rs:60-105 | which error every refused inclusion proof gets: the index is beyond the tree; the number of hashes is not that of the honest path, and both numbers are reported; or the given root is not the one for which the same proof is accepted, and both roots are reported |
| MerkleErrors.InclusionRootReported | src/verifier/sigstore/merkle/proof_verification.rs:70-77 | the honest proof against another root reports the true root and the given one |
| MerkleErrors.ConsistencyErrors | src/verifier/sigstore/merkle/proof_verification.rs:119-179 | which error every refused consistency proof gets, with its sizes and roots |
| MerkleErrors.ConsistencyRootReported | src/verifier/sigstore/merkle/proof_verification.rs:172-179 | the honest proof and old root against another new root report the true root and the given one |
| JsonString.EscapeRoundTrip | src/user_cache_secret.rs:544 | decoding undoes the escaping of a string that is written into a body |
| JsonString.EscapeValid | src/user_cache_secret.rs:544 | what is written is UTF-8 |
| JsonSpelling.StringExact | src/user_cache_secret.rs:588-589 | a string decodes to a text if and only if it spells its characters, each as itself, behind a backslash, or by its number in one escape or a surrogate pair with digits of either case |
| JsonGrammar.NumberExact | src/user_cache_secret.rs:529-532 | a number is a minus, an integer without leading zeros, a fraction and an exponent, the last two and the minus optional; nothing else is a number |
| UserCacheSecret.SecretWritten | src/user_cache_secret.rs:560-571 | the member value that is written is a well-formed JSON string in UTF-8 and means the secret |
| JsonScan.ValueFound | src/user_cache_secret.rs:636-676 | the end of every well-formed value is found, whatever its nesting, strings and escapes |
| JsonScan.DocumentSpans | src/user_cache_secret.rs:575-610 | scanning any well-formed object text finds its outermost members, all of them and nothing else |
| JsonScanner.SkipJsonWhitespace | src/user_cache_secret.rs:612-617 | the loop computes the length of the white space, on any bytes |
| JsonScanner.JsonStringEnd | src/user_cache_secret.rs:619-634 | the loop computes the end of the string token, on any bytes |
| JsonScanner.ContainerEnd | src/user_cache_secret.rs:639-664 | the loop over depth, string and escape state computes the end of the container, on any bytes |
| JsonScanner.ScalarEnd | src/user_cache_secret.rs:665-674 | the two loops compute the end of the scalar without the white space behind it |
| JsonScanner.JsonValueEnd | src/user_cache_secret.rs:636-676 | the three kinds of value together |
| JsonScanner.MemberAt | src/user_cache_secret.rs:588-602 | key, colon, value and the white space between them are read as one member, or the first that is missing ends the scan |
| JsonScanner.TopLevelValueRange | src/user_cache_secret.rs:575-610 | on any bytes: the range of the member with the key if the full scan finds exactly one, nothing otherwise; always within the bytes |
| JsonObject.SpansDescribe | src/user_cache_secret.rs:529-532 | what deserializing an object gives is determined by the scanned spans of its bytes |
| JsonObject.SplicedMembers | src/user_cache_secret.rs:543-549 | splicing at the only match is replacing the value in the syntax tree |
| JsonObject.AppendedText | src/user_cache_secret.rs:562-572 | inserting before the closing brace is appending a member to the syntax tree, with a comma unless it is the first |
| UserCacheSecret.RequestBody.ProvisionValue | src/user_cache_secret.rs:682-698 | inserts the secret unless the body is no object, no secret is set, or the caller has set something but an empty string |
| UserCacheSecret.LastNonSpace | src/user_cache_secret.rs:553-555 | the loop finds the last byte that is not white space |
| UserCacheSecret.Splice | src/user_cache_secret.rs:528-573 | on any bytes and any deserialized map the method computes the specified splice |
| UserCacheSecret.InjectUserCacheSecret | src/user_cache_secret.rs:528-573 | on the text of an object the result is the text of the changed syntax tree, whichever tree it is the text of; otherwise nothing |
| UserCacheSecret.Unambiguous | src/user_cache_secret.rs:529-532 | all syntax trees of one text have the same members |
| UserCacheSecret.ScannerExact | src/user_cache_secret.rs:575-610 | for every object text: a range is found if and only if exactly one member has the key, and it holds the text of that member's value |
| UserCacheSecret.InjectTexts | src/user_cache_secret.rs:521-527 | the result is again an object text, with the one entry set to the secret and the exact bytes of all other values |
| UserCacheSecret.SpliceRefinesInsertion | src/user_cache_secret.rs:528-573 | decoding the bytes that are sent gives the map with the secret inserted, if and only if the key is not repeated with an empty last value (or the secret is empty) |
| UserCacheSecret.TwiceEmptyDiffers | src/user_cache_secret.rs:543 | a concrete body on which the splice and the map insertion differ |
| UserCacheSecret.NothingInjected | src/user_cache_secret.rs:539-543 | nothing is injected if and only if the insertion changes nothing or the key is repeated with an empty last value |
| UserCacheSecret.InjectedOnce | src/user_cache_secret.rs:539-542 | a second injection does nothing |
| UserCacheSecret.InjectKeepsBytes | src/user_cache_secret.rs:521-524 | the result is a prefix and a suffix of the request around one insertion or one replaced empty string |
| UserCacheSecret.FieldName | src/user_cache_secret.rs:37 | the bytes of the key are those of its name |
| UserCacheSecret.SpelledKeyInjected | src/user_cache_secret.rs:538-549 | however the key is spelled and whatever white space is around it, its empty value is replaced |
| UserCacheSecret.SpelledBodyInjected | src/user_cache_secret.rs:538-549 | a concrete body with all four white-space bytes and escapes of both cases, and the bytes that are sent for it |
| Ehbp.RequireHpkePublicKey | src/client.rs:380-388 | a key is returned exactly when one is attested that is not all zeros |
| Ehbp.VerifiedState | src/client.rs:332-378 | the ground truth of a refreshed state names its key |
| Ehbp.EhbpChannel.SetActive | src/ehbp_transport.rs:52-58 | the whole new state of the channel |
| Ehbp.EhbpChannel.Clear | src/ehbp_transport.rs:60-66 | the whole new state of the channel |
| Ehbp.EhbpChannel.Reject | src/ehbp_transport.rs:68-72 | the whole new state of the channel |
| Ehbp.EhbpProxy.constructor | src/ehbp_transport.rs:96-128 | a new channel, active with the key when the key is usable |
| Ehbp.EhbpProxy.InstallState | src/ehbp_transport.rs:145-155 | installs exactly when the key is usable, and changes nothing otherwise |
| Ehbp.EhbpProxy.Rekey | src/ehbp_transport.rs:141-143 | installs the key without a ground truth |
| Ehbp.EhbpProxy.Revoke | src/ehbp_transport.rs:193-196 | clears the channel |
| Ehbp.EhbpProxy.VerifiedGroundTruth | src/ehbp_transport.rs:168-172 | the ground truth of an active channel, nothing otherwise |
| Ehbp.EhbpProxy.RejectIfGeneration | src/ehbp_transport.rs:198-205 | rejects exactly when the generation is the present one, and returns the next one |
| Ehbp.EhbpProxy.FinishRefresh | src/ehbp_transport.rs:241-260 | the verdict at the end of a refresh and the channel it leaves |
| EhbpProtocol.StepInv | src/ehbp_transport.rs:198-334 | every step of every actor keeps the invariant: coherence of all past channels, lock ownership, sealed keys, rejections, closedness |
| EhbpProtocol.RunInv | src/ehbp_transport.rs:198-334 | the invariant holds in every state of every run |
| EhbpProtocol.ChannelCoherent | src/ehbp_transport.rs:51-73 | in every reachable state client and key match, a rejected key means inactive, and a ground truth names the active key |
| EhbpProtocol.AttemptsSealed | src/ehbp_transport.rs:289-313 | every attempt is sealed to a key that was active no earlier than the generation read before it |
| EhbpProtocol.RejectsWhatFailed | src/ehbp_transport.rs:198-205 | a rejection succeeds if and only if the channel is still the one whose generation was read |
| EhbpProtocol.RejectionExact | src/ehbp_transport.rs:198-314 | over all runs: the channel was active, and the rejected key is the one the failed attempt was sealed to |
| EhbpProtocol.OneRefresher | src/ehbp_transport.rs:223-227 | over all runs: successful rejections have strictly increasing generations, so at most one sender refreshes for each |
| EhbpProtocol.InstallsInOrder | src/ehbp_transport.rs:249-260 | which of the three verdicts a refresh gets, exactly |
| EhbpProtocol.RefreshOrdered | src/ehbp_transport.rs:223-260 | over all runs: a refresh installs only if nothing has touched the channel since its own rejection, and never the key it rejected |
| EhbpProgress.UsableExact | src/client.rs:332-388 | the attestations that a channel can be built from, and the ground truth that comes with it |
| EhbpProgress.RequestStarts | src/ehbp_transport.rs:304-309 | a new sender reads the present generation and seals to the present key, or fails when there is none |
| EhbpProgress.MismatchLocks | src/ehbp_transport.rs:316-334 | a key mismatch, and nothing else, sends the sender to the refresh lock |
| EhbpProgress.RejectionRuns | src/ehbp_transport.rs:223-239 | when the channel is still the one that was read, it is rejected and the refresher runs, or, without a refresher, the lock is free again |
| EhbpProgress.RefreshInstalls | src/ehbp_transport.rs:239-330 | a refresh that nobody disturbs, with a usable attestation of another key, installs that key and its ground truth, frees the lock, and the request is sent again with that key |
| EhbpProgress.RefreshSameKey | src/ehbp_transport.rs:252-257 | an attestation of the rejected key fails the request and clears the channel |
| EhbpProgress.RefreshFails | src/ehbp_transport.rs:239-248 | a failed refresh frees the lock and leaves the channel rejected |
| EhbpProgress.OvertakenRetries | src/ehbp_transport.rs:223-251 | a sender that finds the channel changed, before or after its refresh, leaves it alone and sends again with the present key |
| EhbpProgress.VerifyRestores | src/client.rs:247-292 | a successful verification leaves the client verified and the channel bound to the attested key |
| EhbpProgress.VerifyBegins | src/client.rs:222-235 | a verification can start when none is running, and with the lock it makes the channel inactive and the client unverified |
| EhbpProgress.VerifyFails | src/client.rs:236-293 | a failed verification frees the lock and restores nothing |
| EhbpProgress.SenderDropped | src/ehbp_transport.rs:223-334 | a sender can be dropped wherever it waits; the lock is given back and the channel left alone |
| EhbpProgress.VerifyDropped | src/client.rs:222-238 | so can a verification |
| EhbpProgress.RekeyActivates | src/ehbp_transport.rs:141-155 | setting a key makes the channel active with it, and never the client verified |
| EhbpProgress.RevokeCloses | src/ehbp_transport.rs:193-196 | a revocation makes the channel inactive, and changes nothing else |
| EhbpProgress.StepsAhead | src/ehbp_transport.rs:198-334 | every step of a sender brings it nearer to its end, so a request takes at most nine steps |
| EhbpProgress.SenderNotStuck | src/ehbp_transport.rs:174-334 | in every reachable state a sender that has not finished can go on, or waits for the lock of a sender or verification that can |
| EhbpProgress.VerifyNotStuck | src/client.rs:222-293 | so can a verification |
| EhbpProtocol.FailsClosed | src/client.rs:222-246 | over all runs: once a verification has the lock, the channel is inactive and the client unverified until a verification succeeds or a key is set explicitly |
| EhbpProtocol.NothingSent | src/ehbp_transport.rs:289-301 | meanwhile no sender gets hold of a client |
| EhbpProtocol.DropVerifyExact | src/client.rs:222-238 | dropping a verification takes trust away if and only if it has the lock |
| EhbpProtocol.DroppedWhileWaiting | src/client.rs:223-227 | a concrete run in which a dropped verification leaves the client verified |
| SecureClients.SecureClient.Verify | src/client.rs:222-293 | when it succeeds, the client is verified with the returned ground truth and the attested key; when it fails, the client is unverified and an existing channel cleared |
| SecureClients.SecureClient.VerifiedExact | src/client.rs:176-193 | the client is verified if and only if it has a ground truth to show, which takes a pinned client and, behind a proxy, an active channel |
| Utf8.ScanCarry | src/sse.rs:51-67 | scanning the undecided tail together with the next bytes continues the scan of the whole |
| Utf8.ValidExact | src/sse.rs:51-67 | valid texts are exactly the encodings of sequences of Unicode scalar values |
| Utf8.BrokenExact | src/sse.rs:64-71 | bytes are broken if and only if nothing that may follow makes them valid |
| Utf8.LongestValid | src/sse.rs:57-63 | the part that is passed on is the longest valid prefix |
| Lines.LinesRead | src/sse.rs:127 | a text falls into its lines, either line end taken off each |
| SseStream.BoundaryIsFirst | src/sse.rs:115-123 | the two searches find the first separator of either kind, if there is one |
| SseStream.BoundaryStable | src/sse.rs:115-123 | a boundary stays where it is when more text arrives |
| SseStream.DrainSplit | src/sse.rs:73-94 | draining what has arrived and going on is draining all at once, for sturdy texts |
| SseStream.DrainEvents | src/sse.rs:73-94 | the loop computes the drained values, the rest and the error |
| SseStream.ParseEventStream | src/sse.rs:43-110 | the loops compute the decoding of the chunks, with a bounded state |
| SseStream.StateBounded | src/sse.rs:51-95 | after every chunk: at most 3 undecided bytes, no boundary in the buffer, and the buffer within the limit |
| SseStream.FeedTwice | src/sse.rs:47-95 | two chunks are as good as one |
| SseStream.ChunkingInvariant | src/sse.rs:43-110 | values and end of a sturdy stream depend on its bytes only |
| SseStream.ChunkingOnlyTightens | src/sse.rs:43-110 | for every stream that is not invalid UTF-8: cutting it up changes nothing, or ends it on the size limit after some of the values, at least those before the first event near the limit |
| SseStream.ChunkingExact | src/sse.rs:43-110 | for every stream of bytes, valid or not and of any size: all ways of cutting it up have one outcome if and only if it is indifferent, which is computed from its text; `Indifferent` gives the condition for streams within the limit, beyond it and with invalid bytes |
| SseStream.EventsWithinSturdy | src/sse.rs:19-20 | events of at most the limit less three bytes are sturdy |
| SseStream.LimitExact | src/sse.rs:73-94 | an uncut text fails on the size limit only when an event passes it, and does not get past such an event |
| SseStream.OversizeAlwaysFails | src/sse.rs:74-94 | an event beyond the limit, once reached, ends every chunking on the size limit |
| SseStream.BrokenAlwaysFails | src/sse.rs:51-94 | invalid UTF-8 ends every chunking in an error after a prefix of the values of the text in front of it: the error is that of the bytes, or that of the text behind all its values, or the size limit if the text is not sturdy |
| SseStream.CutBeforeInvalid | src/sse.rs:51-94 | cut in front of the invalid bytes, the stream yields the values of its text and then fails |
| SseStream.DecodeWhole | src/sse.rs:43-110 | in one chunk, invalid bytes anywhere suppress all values |
| WhiteSpace.TrimAround | src/sse.rs:128-130 | trimming takes off any white space around a text that has none at its ends |
| WhiteSpace.TrimmedBoth | src/sse.rs:128-130 | what trimming takes off is white space, and it leaves none at the ends |
| SseBlock.PayloadExact | src/sse.rs:127-136 | a line has a payload if and only if it is `data:` with any white space, or none, in front, behind it and at the end, and the payload is neither empty nor the end marker |
| SseBlock.NoDataNoPayload | src/sse.rs:129-132 | all other lines are skipped |
| SseBlock.ParseEventBlock | src/sse.rs:125-145 | the loop computes the decoded payloads of the data lines; which lines have one is `PayloadExact`, and what an event gives is `EventParsed` |
| SseEvents.EventParsed | src/sse.rs:125-145 | an event of data lines with any white space, blank payloads, end markers and other lines, with either line end, gives the values of its data lines in order, or nothing when a payload is not JSON |
| SseEvents.StreamRoundTrip | src/sse.rs:32-145 | a written stream is read back as its values, up to the first payload that is not JSON, however the bytes are cut up |
| SseEvents.StreamEnds | src/sse.rs:47-110 | how any written stream ends, however it is cut up: after the values of its complete events come a transport failure, an incomplete character, or the last event, which no blank line has ended |
| SseEvents.InvalidBehindEvents | src/sse.rs:51-94 | invalid bytes behind any complete events: with them in one chunk nothing is yielded, in a chunk of their own all values are, and then the same error unless a payload is not JSON |
| SseEvents.InvalidByteDiffers | src/sse.rs:69-71 | a concrete stream, one event and one invalid byte, whose values depend on the cut |
| SecretFile.ApplyInv | src/user_cache_secret.rs:160-197 | every step, error and crash of every process keeps the invariant |
| SecretFile.RunInv | src/user_cache_secret.rs:160-197 | the invariant holds in every state of every run |
| SecretFile.DestNeverChanges | src/user_cache_secret.rs:348-386 | once the destination exists, it neither changes nor goes away |
| SecretFile.DestNeverPartial | src/user_cache_secret.rs:348-386 | the destination holds one whole secret, or what it held before |
| SecretFile.Agreement | src/user_cache_secret.rs:160-183 | all values reported as persisted are equal and are what the destination holds ever after |
| SecretFile.ReadSecretExact | src/user_cache_secret.rs:191-196 | a file holds a secret if and only if it is text that is not blank, and the secret is that text without the white space around it |
| SecretFile.ReportExact | src/user_cache_secret.rs:160-183 | over all runs, what a process that has come to its end reports: an in-memory secret exactly when one of its steps failed, the destination was blank or no text from the start, or it lost the race; none exactly without randomness; otherwise the persisted secret |
| SecretFile.ExistingReported | src/user_cache_secret.rs:169-171 | a process that starts when the destination holds a secret reports that secret, unless a step of its own fails |
| SecretFile.CreatorReports | src/user_cache_secret.rs:348-375 | the process whose link makes the destination reports its own secret, and the destination holds it |
| SecretFile.RaceOpened | src/user_cache_secret.rs:169-174 | a process that loses the race has opened the directory before there was a destination |
| SecretFile.RaceLost | src/user_cache_secret.rs:172-174 | a concrete run without failures in which a process keeps its secret in memory although another has persisted one |
| SecretFile.NeverStuck | src/user_cache_secret.rs:160-197 | in every reachable state a process that is neither done nor crashed can take a step that is no failure |
| SecretFile.FailsInMemory | src/user_cache_secret.rs:160-183 | every step that touches the file system can fail, with the secret kept in memory, no file changed and the destination kept |
| SecretFile.StartsAndCrashes | src/user_cache_secret.rs:160-197 | a process can start and crash at any time; a crash leaves all files and links as they are |
| SecretFile.TemporaryRemoved | src/user_cache_secret.rs:365-385 | a process that runs to its end leaves no temporary file |
| Checkpoints.NoteRoundTrip | src/verifier/sigstore/checkpoint.rs:152-215 | unmarshalling undoes marshalling if and only if the note is well formed |
| Checkpoints.UnmarshalExact | src/verifier/sigstore/checkpoint.rs:165-215 | exactly which texts are which notes: origin, size, hash, and the contents of all further lines that are not empty, in order |
| Checkpoints.SignedMessageCanonical | src/verifier/sigstore/checkpoint.rs:130-131 | for every accepted note text, marshalling and unmarshalling again gives the same note |
| Checkpoints.SignedMessageIdentifies | src/verifier/sigstore/checkpoint.rs:130-131 | accepted notes with the same signed message are equal |
| Checkpoints.SignatureRoundTrip | src/verifier/sigstore/checkpoint.rs:220-256 | decoding a written signature line gives the signature back |
| Checkpoints.SignatureExact | src/verifier/sigstore/checkpoint.rs:227-256 | exactly which lines are which signatures |
| Checkpoints.EnvelopeRead | src/verifier/sigstore/checkpoint.rs:80-104 | a signed note with any quotes around it is read as its note and all signatures behind the first blank line, one directly behind the other or with blank lines between them; without any it is refused |
| Checkpoints.DecodeExact | src/verifier/sigstore/checkpoint.rs:80-104 | exactly which texts are which signed checkpoints: the note is in front of the first blank line, and the signatures are those of all lines behind it that are not blank, in order |
| Checkpoints.DecodedWellFormed | src/verifier/sigstore/checkpoint.rs:80-104 | decoding gives well-formed values only |
| Checkpoints.CheckpointRoundTrip | src/verifier/sigstore/checkpoint.rs:80-118 | decoding undoes the encoding that the tests use if and only if the signed checkpoint is well formed; for the texts in use see `EnvelopeRead` and `DecodeExact` |
| Checkpoints.VerifySignature | src/verifier/sigstore/checkpoint.rs:123-146 | succeeds if and only if some signature has the name and the key hint and is valid for the marshalled note |
| Base64.RoundTrip | src/verifier/sigstore/checkpoint.rs:153 | decoding undoes encoding |
| Base64.Canonical | src/verifier/sigstore/checkpoint.rs:188-189 | decoding accepts nothing but what encoding writes |
| Base64.AlphabetExact | src/verifier/sigstore/checkpoint.rs:153 | the characters are those of table 1 of RFC 4648, in both directions |
| Base64.GroupNumber | src/verifier/sigstore/checkpoint.rs:153 | three bytes and the values of their four characters are one number |
| Base64.TailPadded | src/verifier/sigstore/checkpoint.rs:153 | a last incomplete group is filled up with zero bits and padding |
| Decimal.ShowParse | src/verifier/sigstore/checkpoint.rs:184-186 | a printed number is read back if and only if it fits in 64 bits |
| Decimal.ParseExact | src/verifier/sigstore/checkpoint.rs:184-186 | exactly the printed numbers below 2^64 are read, with any zeros and at most one plus sign in front |
| Decimal.ShowCanonical | src/verifier/sigstore/checkpoint.rs:160-163 | a printed number has no leading zero, unless it is zero |
| Decimal.ShowAppend | src/verifier/sigstore/checkpoint.rs:160-163 | printing writes one decimal digit after the other |
| Base32.StandardInverse | src/verifier/dcode.rs:77 | five bytes and eight numbers below 32 determine each other, and the characters left out at the end stand for zero bits |
| Base32.RoundTrip | src/verifier/dcode.rs:77 | decoding undoes encoding, whatever invertible way groups are formed |
| Base32.Canonical | src/verifier/dcode.rs:77 | decoding accepts nothing but what encoding writes |
| Base32.AlphabetExact | src/verifier/dcode.rs:77 | the characters are those of table 3 of RFC 4648, in both directions |
| Base32.SpreadNumber | src/verifier/dcode.rs:77 | five bytes and their eight quintets are one number |
| Dcode.NameExact | src/verifier/dcode.rs:33-63 | exactly the names of two digits, some text and the prefix as whole second label hold a chunk; it has the letters of the text, none in lower case |
| Dcode.UpperExact | src/verifier/dcode.rs:63 | the upper-case form is the one text with the same letters and none in lower case |
| Dcode.DecodeFromSans | src/verifier/dcode.rs:29-78 | the loops compute a value that is defined without reference to the order; duplicates and no match give nothing |
| Dcode.OrderIrrelevant | src/verifier/dcode.rs:70-77 | the result does not depend on the order of the names |
| Dcode.CaseIrrelevant | src/verifier/dcode.rs:63 | names that differ in the letter case of their chunks decode alike |
| Dcode.DuplicateRefused | src/verifier/dcode.rs:70-74 | two names with one number give nothing, whatever they hold |
| Dcode.DecodedExact | src/verifier/dcode.rs:66-78 | a value is decoded if and only if there are chunks, no two with one number, and their texts in the order of their numbers are its base32 form |
| Dcode.SanRoundTrip | src/verifier/dcode.rs:15-28 | names whose texts agree letter by letter with the base32 form of a value, up to case, cut anywhere into numbered chunks, in any order and among other names, are decoded to that value |

## Left out

- Cryptographic primitives and certificate formats: library calls; the hash is a parameter and keys are compared as strings.
- HTTP, TLS, discovery, fetching and retry delays: plumbing; an attestation is a nondeterministic result, and each await a point where other actors move and the task can be dropped.
- The checks of `EhbpProxy::send` on bodyless authenticated requests and on header values, and `validate_proxy_url`: single branches that do not touch the channel.
- EhbpProtocol.RunInv: for runs with fewer than 2^64 changes of the channel, since the generation wraps after that many; all theorems about runs have this limit.
- EhbpProtocol.FailsClosed: `rekey` from outside a verification counts as restoring trust; the code calls it only while a proxy is built.
- EhbpProtocol.StepInv: tasks that wait for the refresh lock obtain it in any order, while the code's lock is fair.
- UserCacheSecret.InjectUserCacheSecret: deserialization is a parameter that the grammar of RFC 8259 specifies, since the JSON library is not modelled.
- UserCacheSecret.SpliceRefinesInsertion: a value that is not a string stands for its exact text; a string that does not decode (a lone surrogate) stands for itself, where the relaxed path would not have built a body.
- SseBlock.ParseEventBlock: the decoding of a payload is a parameter.
- SecretFile.ApplyInv: a step relation on values, because the steps of many processes interleave; a file is its whole contents, without permissions, symbolic links or directories. Temporary names are distinct (they hold 256 random bits) and nobody else touches the destination.
- SecretFile.TemporaryRemoved: removing a temporary file is taken to succeed.
- Dcode.SanRoundTrip: letter case is that of ASCII, so names with other characters are not covered.
- Dcode.DecodeFromSans: calls a function for the library's stable sort; the list is not sorted in place.
- Checkpoints.CheckpointRoundTrip: text is UTF-8 bytes, as in the stream decoder.
- The environment variable, the in-memory fallback and the choice of the request paths that get a secret: independent branches.
- Attestation reports, measurements, and the fields of transparency-log entries: long sequences of independent checks.
- The command-line conformance tool and the response accessors: thin wrappers.
