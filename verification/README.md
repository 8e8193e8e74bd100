# Sovereign Ledger, verified

A Dafny model of an append-only audit ledger whose entries are chained by MACs, whose segments are
closed by signed seals that publish the segment's keys, and whose entry hashes are the leaves of an
RFC 6962 Merkle tree. It proves what each part is for and what holds across the parts:

- **Merkle engine** (`Bits`, `Merkle`, `Inclusion`, `Consistency`). The provers recurse on the largest
  power of two below the tree size; the verifiers work on xor, leading and trailing zeros, a mask and
  population counts. For every pair of sizes the bits describe exactly the levels of the recursion, so
  honest proofs are always accepted, and an accepted proof of any origin is the honest one, so it means
  what it claims, or exhibits a hash collision.
- **Entries, keys and records** (`Hex`, `Events`, `SealRecords`, `SealPayloads`). The MAC message
  determines its fields; the canonical seal payload can be read back exactly when no text in it holds a
  quote, and every record the ledger writes is such.
- **Public verification** (`Segments`, `PublicVerify`, `SealedPrefix`). The streaming verifier accepts
  exactly the logs that satisfy a statement about every entry and every seal, and the tip of one seal
  fixes what the MACs cover of every earlier entry.
- **The ledger** (`LedgerScan`, `Ledger`, `LedgerInvariant`, `LedgerSealing`, `LedgerRuns`, `LedgerKeys`,
  `LedgerCalls`, `LedgerProofs`, `SovereignLedger`). Append, rotate, seal and reopen as a state machine and as a class
  proved to follow it. Over every run of successful calls the fields equal a rescan of the file, keyed
  and public verification accept it, and roots saved earlier stay provable. The file gives away the key of
  the next entry, coincidences aside, exactly when the current base key also belongs to a published epoch:
  that is, when a seed whose key a seal has shown was used again.
- **Import** (`Import`). The byte scanner that removes the hash field from a foreign line.

## How the source is modelled

- Text is its UTF-8 bytes. Words are natural numbers below 2^32 or 2^64, and each place where the
  program can leave that range is an explicit outcome.
- SHA-256, HMAC, the signature check and the record serializer are parameters (`Sha`, `Hasher`, `Env`).
  Completeness uses no fact about them. Soundness ends in "or two of the inputs hashed here collide",
  where the set of inputs is finite and named: the queries of that check, not all byte strings.
  `Env.Faithful` says a written record parses back; `Env.Genuine` says the signer's signatures verify.
- The file is the list of its parsed entries. The clock is an argument. A seal event's body is parsed by
  `Env.parseSeal`.
- A run may start from an empty file or from a clean seal-free file of versions 1 and 2, and uses one
  signer. User appends never use the reserved seal type.
- Keys are compared by value. What a reader of the file can compute (`GivenAway`) is a key that a seal
  shows, or one derived from it as the ledger derives segment keys. A `Coincidence` is two different
  MAC queries that derive keys and have one answer, or a derived key that is also a base key; the keys and
  segments involved are named.

## Where the code and its documentation differ

- `ConsistencyProof::verify` accepts an empty proof from size 0 whatever the two roots are
  (`EmptyOldTreeBindsNothing`).
- For trees of more than 2^63 leaves with the index in the lower half, `index >> inner` shifts by 64,
  which a checked build refuses; that is the outcome `ShiftOverflow`, and its exact condition is in the
  contracts of both verifiers. `largest_pow2_lt` does not end above 2^63.
- The MAC truncates the length of the event type to 32 bits, so messages are injective below 2^32 bytes
  and not beyond (`LongTypesCollide`).
- A quote inside a text value makes a signed payload unreadable as its own fields, and one in a revealed
  key makes it stand for two maps (`QuotedKeyIsAmbiguous`). `PayloadRoundTrip` is the exact condition.
- `append` accepts the reserved seal type. The handle does not count such an entry as a seal and a rescan
  does; `AppendCacheIff` says that this is the only append that spoils the cache.
- `rotate_key` is documented to authenticate under the new seed's key. It does so exactly when the ring
  held no other key for the new epoch (`RotationUsesItsSeed`).
- After a seal has published a base key the documentation asks for a fresh seed. The program does not
  check that it is fresh: a rotation back to a published seed succeeds and clears `needs_rotation`, and
  the file then gives away the key of every later entry (`ReusedSeedIsAccepted`,
  `SameSeedAfterLegacySeal`). `RotationReusesIff` is the condition to check before the call.
- The seal entry of a legacy segment 0 is written under a key derived from a base key that its own record
  publishes; no other seal entry is (`LegacySealShowsItsOwnKey`).
- A refused `seal` or `rotate_key` has already changed fields; `SealCacheIff` and `RotateCacheIff` say
  exactly when the fields stop being a cache of the file.
- `prev_hash` is compared after decoding, and decoding accepts upper-case digits, so two accepted logs may
  differ in the letter case of that text. `SealBindsPrefix` binds its value.
- `strip_hash_field` is documented to remove the top-level field. It removes the leftmost field whose
  removal leaves an object, nested or not (`NestedFieldGoesFirst`).

## Model

| member | source | states |
|---|---|---|
| Merkle.LargestPow2Lt | src/merkle.rs:31-37 | the doubling loop ends for n up to 2^63, never drops a bit, and returns the split point (0 for n below 2) |
| Merkle.SplitIsLargest | src/merkle.rs:30-37 | no power of two below n exceeds the split point |
| Merkle.ComputeMth | src/merkle.rs:42-51 | the recursive program computes the RFC 6962 tree hash |
| Merkle.EncodeQueryInjective | src/merkle.rs:15-28 | the tag bytes and widths keep empty, leaf and node hash inputs apart |
| Merkle.CollisionInSha | src/merkle.rs:15-28 | colliding tree queries are two different byte strings, both hashed, with one SHA-256 value |
| Merkle.MthIsRfc | src/merkle.rs:15-51 | on bytes: the hash of nothing, of 0x00 and a leaf, of 0x01 and the two subtree hashes, the left subtree being the power of two not smaller than the right |
| Merkle.RootBinding | src/merkle.rs:42-51 | lists of any two lengths with one root are equal, or two of the hashed inputs collide |
| Merkle.ComputeAuditPath | src/merkle.rs:53-75 | the prover pushes exactly the sibling hashes, lowest first; nothing for an index out of range |
| Merkle.ComputeConsistencyNodes | src/merkle.rs:168-195 | the prover pushes exactly the subproof nodes; nothing for sizes 0, equal or too large |
| Merkle.AuditPathLength | src/merkle.rs:53-66 | an audit path has at most ceil(log2 n) nodes |
| Merkle.SubproofLength | src/merkle.rs:168-184 | a consistency proof has at most ceil(log2 n) + 1 nodes |
| Inclusion.BitsAreTree | src/merkle.rs:88-98 | for every index and size, inner bits plus border describe exactly the levels of the recursive split |
| Inclusion.ChainsAreTreeWalk | src/merkle.rs:101-136 | on any nodes, chain_inner then chain_border_right is the walk up the recursive tree, query for query |
| Inclusion.OverflowIsTopBit | src/merkle.rs:88-98 | the inner size is 64, and the shift out of range, exactly when index < 2^63 < size |
| Inclusion.DecompInclProof | src/merkle.rs:95-98 | the two parts add up to the depth of the leaf and the shift is below 64, outside the overflow case |
| Inclusion.ChainInner | src/merkle.rs:101-111 | the loop climbs with the side given by bit i of the index at level i |
| Inclusion.ChainBorderRight | src/merkle.rs:130-136 | the loop climbs with left siblings only |
| Inclusion.InclusionProof.Verify | src/merkle.rs:140-165 | accepts exactly the proofs of the right shape whose walk from the leaf gives the root; each error exactly when its condition is the first to fail |
| Inclusion.InclusionComplete | src/merkle.rs:53-75 | the honest path has one node per level and leads from leaf i to the root |
| Inclusion.InclusionSound | src/merkle.rs:140-165 | any path that leads to the root of d at index i starts at d[i] and is the honest path node for node, or two asked inputs collide |
| Inclusion.AcceptedInclusion | src/merkle.rs:140-165 | what the verifier accepts against the root of d: an index of d, as many nodes as the prover gives, and that leaf with exactly those nodes, or two asked inputs collide |
| Inclusion.HonestInclusion | src/merkle.rs:53-75 | the honest proof of every leaf satisfies the verifier's condition |
| Consistency.InnerExceedsShift | src/merkle.rs:240-242 | `inner -= shift` never underflows for 0 < m < n |
| Consistency.OldSidesAreSuffix | src/merkle.rs:237-242 | the levels of a consistency proof are those of the inclusion proof of leaf m-1 from the trailing zeros of m on |
| Consistency.MaskIsTree | src/merkle.rs:240-264 | for every 0 < m < n, mask, shift and border describe exactly the levels of the recursive subproof |
| Consistency.ChainInnerRight | src/merkle.rs:115-127 | the loop climbs with the left siblings at the set bits and skips the others |
| Consistency.ConsistencyProof.Verify | src/merkle.rs:209-270 | accepts exactly the proofs whose two walks over one node list rebuild both roots, with the seed or without; each error exactly when its condition is the first to fail |
| Consistency.ConsistencyComplete | src/merkle.rs:187-195 | the recursive proof from any m up to the length of d is accepted against the roots of d[..m] and d |
| Consistency.ConsistencySound | src/merkle.rs:209-270 | any accepted proof between the roots of a and b has as many nodes as the honest one; a is a prefix of b and the nodes are the honest ones, or two asked inputs collide |
| Consistency.EmptyOldTreeBindsNothing | src/merkle.rs:215-228 | a proof from size 0 is accepted for any roots, unless the new size is 0 too |
| Hex.HashRoundTrip | src/lib.rs:317-322 | decoding an encoded 32-byte hash gives it back |
| Hex.HexIsLowerCase | src/lib.rs:317-322 | digits are written high half first in lower case and read in both cases |
| Events.MacMessageInjective | src/lib.rs:283-292 | the v2/v3 MAC message determines prev_hash, seq, ts, event_type below 2^32 bytes and body |
| Events.LongTypesCollide | src/lib.rs:289 | from 2^32 bytes on two different entries share one message |
| Events.MacLayout | src/lib.rs:283-292 | the place of the tag and of every field in the message |
| Events.LittleEndianRoundTrip | src/lib.rs:285-291 | reading a number lowest byte first gives it back |
| Events.MacHashBinds | src/lib.rs:299-317 | v2/v3 entries with one hash have one key and one content, or two different MAC calls collide |
| Events.V1Covers | src/lib.rs:252-271 | every field of a v1 entry, the key last, is seen at its place in what is hashed |
| Events.V1MessageDetermines | src/lib.rs:252-271 | two v1 messages are equal exactly when previous hash, number, time, key and the concatenation of type and body are |
| Events.V1HashBinds | src/lib.rs:252-271 | v1 entries with one hash agree on all of these, or their messages collide in SHA-256 |
| Events.BaseKeyBinds | src/lib.rs:142-150 | two seeds with one base key are equal, or their inputs collide in SHA-256 |
| Events.SegmentKeyIsMac | src/lib.rs:176-186 | under every MAC the segment key is the answer to the query of its base and segment |
| Events.SegmentQueryInjective | src/lib.rs:176-186 | derivation queries are equal exactly when base and segment are |
| Events.QueriesApart | src/lib.rs:176-186 | no query that derives a key is one that authenticates an entry |
| SealRecords.SortedKeys | src/seal.rs:57 | the entries of the revealed map are listed once each, in increasing order of epoch |
| SealPayloads.PayloadRoundTrip | src/seal.rs:73-84 | a reader gives back the fields of a canonical payload exactly when none of its texts holds a quote |
| SealPayloads.PayloadInjective | src/seal.rs:73-84 | a record with the payload of a quote-free record has its end_seq, merkle_root, revealed map, segment, start_seq and tip_hash exactly when it is quote-free too |
| SealPayloads.QuotedKeyIsAmbiguous | src/seal.rs:74-79 | with a quote in a revealed key two different maps have one payload |
| SealPayloads.PayloadExample | src/seal.rs:73-84 | one payload in full, byte for byte |
| PublicVerify.CheckSegmentEntries | src/seal.rs:206-234 | the inner loop accepts exactly the segments whose every entry authenticates under the key revealed for its epoch, and collects their leaves |
| PublicVerify.FinishSegment | src/seal.rs:174-266 | accepts exactly the records that close the buffered segment: order, previous seal, bounds, keys, root, tip, pinned identity, signature; a fault says which condition failed and that those checked before it held |
| PublicVerify.VerifyPublic | src/seal.rs:165-315 | accepts exactly the logs in which every entry is linked and every seal closes what follows the previous one; the report; an error names the first entry that breaks this and how |
| SealedPrefix.SealedIsAuthentic | src/seal.rs:207-234 | in an accepted log every entry before a seal is authenticated by the record of the next seal after it |
| SealedPrefix.CoverIsUnique | src/seal.rs:297-305 | the blocks of the seals do not overlap: the seal covering an entry is the next one after it |
| SealedPrefix.AcceptedIff | src/seal.rs:165-315 | a log is accepted exactly when every entry is in the chain and every seal's record fits its place, said without running values |
| SealedPrefix.AcceptedSeal | src/seal.rs:174-266 | the record of an accepted seal is signed over its own canonical payload by the identity of the first seal, counts the seals before it, covers exactly the entries since the last one, and has their root, tip and the last seal's hash |
| SealedPrefix.ReportMeans | src/seal.rs:308-314 | for every accepted log the report gives the position of the last seal, the rest, the number of seals and the first seal's identity |
| SealedPrefix.HashBindsHistory | src/lib.rs:275-297 | sealed entries with one hash in two accepted logs stand at one position after one history, if no checked MACs collide |
| SealedPrefix.SealBindsPrefix | src/seal.rs:207-241 | two accepted logs with seals of one tip hash agree on number, time, type, body, hash and the value of prev_hash of every earlier entry, or two checked MACs collide |
| LedgerScan.CleanEntry | src/lib.rs:444-500 | in a file that opens uncompromised every entry is linked, numbered and carries its MAC under the key of its segment |
| LedgerScan.CleanIff | src/lib.rs:444-500 | a file opens uncompromised exactly when every entry carries its MAC at its place and every seal has a record |
| LedgerScan.CleanMemory | src/lib.rs:444-517 | the fields of such a handle: tip, length, seals, largest epoch, furthest sealed number, legacy flag, and the epochs of a sealed legacy segment 0 |
| LedgerScan.PassesAgree | src/lib.rs:631-686 | how the opening scan and verification end, compared, for every entry list and keyring |
| LedgerScan.VerifyIsKeyedOk | src/lib.rs:624-688 | keyed verification accepts exactly the logs in which every entry carries its MAC under the key of its segment and every seal parses and reveals only right keys |
| LedgerScan.VerifiedOpensClean | src/lib.rs:624-688 | a verified ledger opens uncompromised |
| LedgerScan.CleanFailsOnlyOnReveals | src/lib.rs:664-685 | an uncompromised ledger fails verification only at a seal that reveals a wrong or unknown key |
| LedgerScan.CompromisedIsBroken | src/lib.rs:477-495 | a scan stopped at entry i is a broken chain at i for verification, or a bad reveal earlier |
| LedgerScan.RefusedFailsVerify | src/lib.rs:463-489 | an entry that makes opening fail makes verification fail there, with the same error unless it is a seal, or on a bad reveal earlier |
| LedgerScan.FirstRevealFault | src/lib.rs:664-685 | the fault reported for a seal is the first in epoch order, unknown epoch or wrong key |
| LedgerInvariant.PlainKeeps | src/lib.rs:546-602 | one more ordinary entry keeps the invariant: exact cache, both verifications, one key per segment |
| LedgerInvariant.OpenGrows | src/lib.rs:453-499 | an authentic entry keeps the scan clean and moves its memory as an append moves the fields |
| LedgerSealing.InRangeIsSuffix | src/lib.rs:727-731 | the pass over the whole file selects exactly the open segment |
| LedgerSealing.GatherCollects | src/lib.rs:723-750 | the pass collects every leaf, the last seal, and for exactly the epochs seen the key of each |
| LedgerSealing.SealDecision | src/lib.rs:711-776 | in a sound state a seal call does nothing exactly when the open segment holds only seals, is refused only by the signer, and otherwise writes the record of the open segment |
| LedgerSealing.WrittenPayloadReadsBack | src/lib.rs:759-776 | the payload of every record a seal call writes reads back as its own fields |
| LedgerSealing.PlannedCloses | src/lib.rs:759-776 | the record a seal call writes closes the open segment for a verifier without keys |
| LedgerSealing.SealKeeps | src/lib.rs:778-788 | recording the seal keeps the invariant, published epochs included |
| LedgerRuns.StartIsSound | src/lib.rs:431-517 | an empty file, or a clean seal-free file of versions 1 and 2, satisfies the invariant |
| LedgerRuns.StepKeeps | src/lib.rs:534-789 | every successful append, rotation, seal and reopening keeps the invariant |
| LedgerRuns.RunIsPublic | src/lib.rs:711-789 | after any run the public verifier accepts, with segments = seals_seen, sealed = sealed_through, sealed + unsealed = seq and the signer's identity |
| LedgerRuns.RunIsFaithful | src/lib.rs:431-517 | after any run reopening gives exactly the fields, uncompromised, and keyed verification accepts |
| LedgerRuns.AppendCacheIff | src/lib.rs:546-602 | an append of any type leaves the fields a faithful cache, refused or not, unless it is let through with the reserved seal type |
| LedgerRuns.SealCacheIff | src/lib.rs:711-789 | a seal call leaves the fields a faithful cache unless the open segment has something to seal, the signer signs, and the handle is read-only or at the end of the numbering |
| LedgerRuns.RotateCacheIff | src/lib.rs:534-543 | a rotation does so unless the epoch moves and the handle is read-only, at the end of the numbering or without keys |
| LedgerKeys.SegmentsAreUniform | src/lib.rs:563-568 | segment 0 is all v <= 2 or all v = 3, later segments all v = 3; each entry's MAC is under the one key its epoch has in its segment |
| LedgerKeys.SealRevealsWriteKeys | src/lib.rs:741-749 | the one key per epoch a seal reveals is the key every entry of that epoch in the segment was written under |
| LedgerKeys.VerifiedRevealsKeys | src/lib.rs:664-685 | in any ledger that verifies, a seal lists for an epoch the base key of a legacy segment 0, or the answer of the derivation query of its segment |
| LedgerKeys.VerifiedRevealsAuthenticate | src/lib.rs:664-685 | so it authenticates, without keys, every entry of that epoch and segment that has the version its segment calls for |
| LedgerKeys.ShownOrigin | src/lib.rs:741-749 | every key a seal shows is the base of a remembered epoch or the key of an already closed segment |
| LedgerKeys.PublishedBaseIsShown | src/lib.rs:783-787 | the base key of every remembered epoch really is shown by a seal |
| LedgerKeys.StepWritesHidden | src/lib.rs:553-568 | the file so far gives away the key of the entry a successful step writes if the ring holds the same base key for a published epoch, and, coincidences aside, only then |
| LedgerKeys.RunWritesHidden | src/lib.rs:193-206 | the same for the next step after any run |
| LedgerKeys.DistinctRingIsFresh | src/lib.rs:553-559 | on a ring without repeated keys an unpublished epoch never reuses a published key |
| LedgerKeys.RotationReusesIff | src/lib.rs:534-543 | on a ring without spare keys a rotation reuses a published key exactly when its seed derives one |
| LedgerKeys.ReusedSeedIsAccepted | src/lib.rs:534-543 | a rotation to the seed of a published epoch succeeds, the epoch does not count as published, and the file gives away the key of every segment to come |
| LedgerKeys.SameSeedAfterLegacySeal | src/lib.rs:702-710 | so a legacy ledger that is sealed and rotated to its own old seed goes on under keys the file gives away |
| LedgerRuns.RunKeepsIdle | src/lib.rs:752-756 | after any run, while the current epoch is published the open segment holds only the seal that published it |
| LedgerRuns.PublishedEpochFreezesFile | src/lib.rs:553-559 | from a reachable state whose epoch is published, every successful run without a rotation leaves file, ring and fields as they are |
| LedgerKeys.RotationLeavesPublished | src/lib.rs:534-543 | a rotation on a handle that can write always succeeds, and the new epoch is not among the published ones |
| LedgerKeys.LegacySealShowsItsOwnKey | src/lib.rs:778-787 | a record gives away the key of its own entry if it closes a legacy segment 0 and, coincidences aside, only then |
| LedgerKeys.RotationUsesItsSeed | src/lib.rs:535-541 | the new epoch's key is the new seed's exactly when the ring held no other key for it |
| LedgerProofs.OldRootStaysProvable | src/lib.rs:867-880 | between any two states of a run the later consistency proof convinces a holder of the earlier root |
| LedgerProofs.EveryEntryIsIncluded | src/lib.rs:853-863 | the inclusion proof of every number from 1 to the length verifies against the current root |
| LedgerProofs.NumbersAreDense | src/lib.rs:824-844 | in every reachable state the numbers run from 1 to the length without gaps and every stored hash decodes |
| LedgerProofs.RootIsRfc | src/lib.rs:847-849 | the root of a file is the RFC 6962 hash of its stored hashes under SHA-256, on bytes |
| LedgerCalls.AppendWrites | src/lib.rs:546-602 | a successful append returns the new length; the entry there has the caller's type, body and time, the current epoch, and the MAC of exactly these after the old tip |
| LedgerCalls.RotateWrites | src/lib.rs:534-543 | a successful rotation adds the seed's key and one rotation entry of the new epoch whose body reads back as the epoch returned |
| LedgerCalls.SealWrites | src/lib.rs:711-789 | the number a seal call returns is that of its own seal entry, and then every earlier entry is publicly sealed |
| LedgerCalls.SealWritesIff | src/lib.rs:711-789 | after a run, a seal call writes exactly when some entry since the last seal is not a seal, the signer signs and the handle can write |
| LedgerCalls.FlaggedWritesNothing | src/lib.rs:546-553 | on a read-only or compromised handle no call writes |
| LedgerCalls.RingAt | src/lib.rs:400-404 | the key of epoch i is derived from seed i |
| LedgerCalls.SeedsReopen | src/lib.rs:395-404 | after any run, the first seeds and those rotated to, in order, open the file with the same fields and verify it |
| SovereignLedgers.SovereignLedger.OpenWithSeeds | src/lib.rs:398-518 | the opening loop computes the scan, its early errors and its early stop included |
| SovereignLedgers.SovereignLedger.Append | src/lib.rs:546-602 | the whole new state and result; a refused call changes nothing |
| SovereignLedgers.SovereignLedger.RotateKey | src/lib.rs:534-543 | the whole new state and result; ring and epoch move even when the entry is refused |
| SovereignLedgers.SovereignLedger.Seal | src/lib.rs:711-789 | the whole new state and result; the counters move even when the entry is refused |
| SovereignLedgers.SovereignLedger.GatherSegment | src/lib.rs:723-750 | the filtering loop collects what one pass over the selected entries collects, and stops at its first error |
| SovereignLedgers.SovereignLedger.Verify | src/lib.rs:624-688 | the loop computes the verification pass with its first error |
| SovereignLedgers.SovereignLedger.CheckReveals | src/lib.rs:664-685 | the loop finds the first wrong or unknown revealed key in epoch order |
| SovereignLedgers.SovereignLedger.NeedsRotation | src/lib.rs:698-700 | true exactly when every append on a handle that can write is refused for the published epoch; in a sound state the file then shows the current base key |
| SovereignLedgers.SovereignLedger.LeafHashes | src/lib.rs:834-844 | all stored hashes in order, or an error exactly when one does not decode |
| SovereignLedgers.SovereignLedger.MerkleRoot | src/lib.rs:847-849 | the tree hash over all stored hashes |
| SovereignLedgers.SovereignLedger.ProveInclusion | src/lib.rs:853-863 | a proof for exactly the numbers in the file, and it proves that entry against the root |
| SovereignLedgers.SovereignLedger.ProveConsistency | src/lib.rs:867-880 | a proof for exactly the sizes up to the length, and it proves that prefix's root against the current one |
| Import.CutAtIsCut | src/import.rs:37-72 | what the scanner finds at a position is a field behind a comma with the stated shape |
| Import.CutIsFound | src/import.rs:37-72 | every such field is what the scanner finds at its position |
| Import.StripHashField | src/import.rs:34-85 | removes exactly the leftmost field whose removal leaves an object, and nothing only when there is none |
| Import.StripUndoesInsert | src/import.rs:31-33 | inserting the field and stripping gives back object and hash exactly when the leftmost strippable field is the inserted one or the first of a run of its copies that ends with it |
| Import.NestedFieldGoesFirst | src/import.rs:31-33 | on a line with a nested and a top-level hash field the nested one goes and the top-level one stays |

## Left out

- SHA-256, HMAC, Ed25519, ECDSA and base64 internals: parameters, with only the facts named above.
- Key secrecy as a computational claim: what a reader can compute is one derivation step from a shown key, as the ledger derives keys; guessing keys or inverting MACs is outside the model.
- Files, locks, permissions, fsync, memory pinning and clocks: the file is a list of entries and a timestamp is an argument; writes never fail.
- JSON parsing by serde, blank and malformed lines: the model starts from parsed entries, so line numbers count entries; in `Import` the object check is a parameter.
- The version 1 hash in the theorems over whole logs: it has no length prefixes, so it binds type and body only together; `V1HashBinds` is what holds of one entry.
- Version and epoch in the binding theorems: the MAC does not cover them.
- A mixed-version segment 0 as the start of a run: writers never produce one.
- src/anchor.rs, src/main.rs, src/wasm.rs, the web viewer, the JavaScript verifier and the rest of src/import.rs: drivers and wrappers that add only easy members.
- Merkle.LargestPow2Lt: sizes above 2^63 are excluded, because there the loop does not end and no slice is that long.
- PublicVerify.VerifyPublic: logs above 2^63 entries are excluded, because no slice is that long; errors that carry no line in the program carry one here.
