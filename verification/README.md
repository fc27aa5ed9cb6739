# eth2 BTP message verifier, modelled in Dafny

This project models the Ethereum 2 message verifier of the BTP bridge: the
contract on the destination chain that accepts relay messages built from an
Ethereum beacon chain and hands the BTP messages they contain to the BMC.

A relay message is a list of sub-messages processed in order:

- a **block update** (a light-client update) is checked against the sync
  committee the verifier trusts. It may advance the stored finalized header,
  learn the next sync committee, or rotate the committees;
- a **block proof** shows, by one SSZ Merkle branch (or two, through a
  historical summary, for blocks more than 8192 slots old), that a beacon
  block lies under the state root of the stored finalized header;
- a **message proof** proves the receipts root of that block and trie
  proofs of receipts under it. Every log whose first topic is the keccak-256
  of `Message(string,uint256,bytes)` is a BTP message. Its third topic,
  read by Java's `new BigInteger(byte[])`, must be exactly one more than the
  last accepted sequence number.

The model is pure: every operation is a function or a method over immutable
values. The verifier's stored record `BMVProperties` is threaded through
explicitly. A rejected relay message is an `Err`, which the caller discards,
as the platform reverts the transaction.

The primitives the verifier calls but does not define are arbitrary
function-valued fields of `Eth2Types.Env`, so every property proved holds
whatever they compute. They are BLS aggregate verification, the finality and
next-committee branch checks, `SszUtils.verify`, `MerklePatriciaTree.prove`,
hash-tree roots, keccak-256 and the RLP byte parser. The number of slots
per sync-committee period is an arbitrary positive constant of the same
`Env`.

Modules, in dependency order:

| file | module | contents |
|---|---|---|
| outcomes.dfy | Outcomes | `Option`, `Result`, `Outcome` and the `Failure` reasons |
| big_integers.dfy | BigIntegers | big-endian byte strings, `new BigInteger(byte[])`, the two's-complement encoder and its round trip |
| receipts.dfy | Receipts | the RLP item tree, `Log`, `Receipt`, `Receipt.readObject`/`fromBytes` and an encoder with its round trip |
| eth2_types.dfy | Eth2Types | beacon headers, sync committees, proofs, sub-messages, `BMVProperties`, `Env`, sync-committee periods |
| block_updates.dfy | BlockUpdates | `validateBlockUpdate`, `applyBlockUpdate`, and the period and rotation lemmas |
| block_proofs.dfy | BlockProofs | `processBlockProof` |
| message_proofs.dfy | MessageProofs | `processMessageProof`, the sequence-number discipline of message logs |
| verifier.dfy | Verifier | `checkAccessible`, `setSequence`, `handleRelayMessage` |

Where the model settles what the Java leaves to a library or to an
exception:

- An exception is a `Failure` value. Reading `topics[0]` of a log with no
  topics, or `topics[2]` of a message log with fewer than three, is
  `TopicMissing(0)` or `TopicMissing(2)`. An empty sequence topic makes
  `new BigInteger` throw; this is `MalformedSequence`. A message proof
  with no preceding block proof dereferences `null` in the source; this is
  `MissingBlockProof`. A trie proof that `MerklePatriciaTree.prove` rejects
  is `InvalidTrieProof`, and a value `Receipt.fromBytes` cannot read is
  `MalformedReceipt`.
- The RLP reader's `readBigInteger` is read as a big-endian two's-complement
  integer, with the empty string being zero. The reader's `end()` is read
  as skipping any items left in a list, so a receipt list may carry items
  after its four fields. A log is the list `[address, [topic, ...], data]`
  of Appendix B and section 4.3.1 of the Ethereum Yellow Paper. `Log.java`
  and the RLP reader are not part of this model.
- `Receipt.getLogs` and the constructor are the fields of the `Receipt`
  datatype, stored as given.
- `Log.getMessage()` is taken to return the log's data item (its third RLP
  item) unchanged, and so never to fail. The `Message` event's payload is a
  non-indexed `bytes`; should `Log.java` decode its ABI encoding (offset,
  length, padded content) instead, the messages returned would be that
  decoding and a too-short data item could reject the log, neither of which
  this model states.
- `SszUtils.verify`, `verifyFinalizedHeader` and `verifyNextSyncCommittee`
  are called in the source only for their effect; they are read as checks
  that throw on a proof that does not verify. In `Env` each is a boolean
  check, and `false` rejects the call. `processBlockProof`,
  `processMessageProof` and the block-update validation rest on that reading.
- `handleRelayMessage` takes a sequence-number argument `_seq` that it never
  reads; `Verifier.HandleRelayMessage` leaves it out.

## Model

| member | source | states |
|---|---|---|
| BigIntegers.BigIntegerOf | bmv/eth2/src/main/java/foundation/icon/btp/bmv/eth2/BTPMessageVerifier.java:251 | `new BigInteger` fails exactly on the empty byte string. Otherwise it gives the two's-complement reading: the unsigned big-endian value, less 256^w when the leading byte is 0x80 or more, which lies in [-128·256^(w-1), 128·256^(w-1)) |
| BigIntegers.SignedValue | bmv/eth2/src/main/java/foundation/icon/btp/bmv/eth2/BTPMessageVerifier.java:251 | the value read from a non-empty byte string lies in [-128·256^(w-1), 128·256^(w-1)) and is negative exactly when the leading byte is 0x80 or more |
| BigIntegers.UnsignedRoundTrip | bmv/eth2/src/main/java/foundation/icon/btp/bmv/eth2/BTPMessageVerifier.java:251 | reading back the w-byte big-endian string of any value below 256^w gives that value |
| BigIntegers.UnsignedReadAsSigned | bmv/eth2/src/main/java/foundation/icon/btp/bmv/eth2/BTPMessageVerifier.java:251 | a w-byte unsigned topic (a `uint256` sequence number) is read as its own value below half the range, and as that value minus 256^w at or above it |
| BigIntegers.SignedRoundTrip | bmv/eth2/src/main/java/foundation/icon/btp/bmv/eth2/BTPMessageVerifier.java:251 | `new BigInteger` gives back every integer from its w-byte two's-complement encoding, for every width it fits in |
| Receipts.ReadEach | bmv/eth2/src/main/java/foundation/icon/btp/bmv/eth2/Receipt.java:48-56 | reading the items of a list succeeds exactly when every item reads; the results have the same count and each is the reading of the item at the same position |
| Receipts.ReadReceipt | bmv/eth2/src/main/java/foundation/icon/btp/bmv/eth2/Receipt.java:43-59 | a receipt is read exactly when the item is a list of a string, an integer string, a string and a list of readable logs; its fields are those items, and its logs are the readings of the log items, in order |
| Receipts.ReceiptRoundTrip | bmv/eth2/src/main/java/foundation/icon/btp/bmv/eth2/Receipt.java:43-59 | reading the item tree of any receipt gives back that receipt, including negative and multi-byte gas values |
| Receipts.FromBytes | bmv/eth2/src/main/java/foundation/icon/btp/bmv/eth2/Receipt.java:61-64 | bytes decode to a receipt exactly when the RLP parser accepts them and the item tree has the receipt layout; the receipt's fields and logs, in order, are the readings of that tree's items |
| Receipts.FromBytesOfEncoding | bmv/eth2/src/main/java/foundation/icon/btp/bmv/eth2/Receipt.java:61-64 | bytes that the RLP parser turns into the item tree of a receipt decode to that receipt |
| Eth2Types.PeriodMonotone | bmv/eth2/src/main/java/foundation/icon/btp/bmv/eth2/BTPMessageVerifier.java:142-143 | a later slot never lies in an earlier sync-committee period |
| Eth2Types.LaterPeriodLaterSlot | bmv/eth2/src/main/java/foundation/icon/btp/bmv/eth2/BTPMessageVerifier.java:179-180 | a later period implies a strictly later slot |
| BlockUpdates.ValidateBlockUpdate | bmv/eth2/src/main/java/foundation/icon/btp/bmv/eth2/BTPMessageVerifier.java:130-171 | an update passes exactly when the signature slot follows the attested slot, which is not before the finalized slot; the signature period is the stored period or, with a next committee stored, the one after; both branches check; and the committee of the signature period signed. Each slot-order failure reports its own error, and `NotVerifiable` carries the stored slot exactly when the period is out of reach. Once slots and period are in reach, a bad finality branch reports `InvalidFinalityProof`, then a bad next-committee branch `InvalidNextSyncCommitteeProof`, then a failed aggregate check of the signing committee `InvalidSignature` |
| BlockUpdates.ApplyBlockUpdate | bmv/eth2/src/main/java/foundation/icon/btp/bmv/eth2/BTPMessageVerifier.java:173-197 | it fails (invalid update period) exactly when no next committee is stored and the update finalizes another period. The stored finalized header becomes the update's exactly when the update's slot is greater. The next committee is learned when none is stored; committees rotate when the finalized period is one past the stored one; otherwise both stay. Nothing else changes |
| BlockUpdates.ProcessBlockUpdate | bmv/eth2/src/main/java/foundation/icon/btp/bmv/eth2/BTPMessageVerifier.java:124-128 | an accepted update never lowers the finalized slot and never touches the message counters, network, BMC or genesis validators hash |
| BlockUpdates.ValidatedUpdateReach | bmv/eth2/src/main/java/foundation/icon/btp/bmv/eth2/BTPMessageVerifier.java:137-152 | a validated update finalizes a slot whose period is at most the signature's period, which is at most one past the stored period |
| BlockUpdates.FinalizedPeriodStep | bmv/eth2/src/main/java/foundation/icon/btp/bmv/eth2/BTPMessageVerifier.java:182-195 | across one accepted update the stored finalized period stays or advances by exactly one |
| BlockUpdates.CommitteeRotation | bmv/eth2/src/main/java/foundation/icon/btp/bmv/eth2/BTPMessageVerifier.java:182-190 | with a next committee stored, it becomes current (and the update's candidate becomes next) exactly when the stored finalized period advances by one. With none stored, the current committee stays, the candidate becomes next and the period does not move |
| BlockUpdates.PromotedOnlyFromNext | bmv/eth2/src/main/java/foundation/icon/btp/bmv/eth2/BTPMessageVerifier.java:186-189 | a committee only becomes current if it was the stored next committee, and only as the finalized period advances by one |
| BlockProofs.ProcessBlockProof | bmv/eth2/src/main/java/foundation/icon/btp/bmv/eth2/BTPMessageVerifier.java:199-230 | a block proof passes exactly when the block is not after the stored finalized slot and its hash-tree root is anchored under the stored state root: by one branch within 8192 slots, otherwise by a historical branch then the block-roots branch. A block ahead and a missing historical proof each report their own error. A block root that differs from the leaf of the historical branch (old block) or of the block-roots branch (recent block) reports `InvalidHashTree` |
| MessageProofs.InSequenceAppend | bmv/eth2/src/main/java/foundation/icon/btp/bmv/eth2/BTPMessageVerifier.java:242-257 | scanning a concatenation of logs succeeds exactly when the first part scans and the second part scans from the counter the first part leaves |
| MessageProofs.NoReplayAcrossBatches | bmv/eth2/src/main/java/foundation/icon/btp/bmv/eth2/BTPMessageVerifier.java:251-253 | two consecutive accepted batches never accept the same sequence number: every number of the second is greater than every number of the first |
| MessageProofs.GapRejected | bmv/eth2/src/main/java/foundation/icon/btp/bmv/eth2/BTPMessageVerifier.java:251-253 | a message log that skips a number is rejected even right after an accepted one |
| MessageProofs.ProveReceipt | bmv/eth2/src/main/java/foundation/icon/btp/bmv/eth2/BTPMessageVerifier.java:244-245 | a receipt proof yields a receipt exactly when the trie proves a value under the receipts root and that value parses to a receipt-shaped item; a failed trie proof reports `InvalidTrieProof` and an undecodable value `MalformedReceipt` |
| MessageProofs.ProveEncodedReceipt | bmv/eth2/src/main/java/foundation/icon/btp/bmv/eth2/BTPMessageVerifier.java:244-245 | a trie that stores the RLP encoding of a receipt proves exactly that receipt |
| MessageProofs.ScanLogs | bmv/eth2/src/main/java/foundation/icon/btp/bmv/eth2/BTPMessageVerifier.java:247-256 | scanning the logs of one receipt succeeds exactly when every log has a first topic and the message logs claim consecutive numbers after the counter. It then returns their payloads in order and the counter advanced by their count; a failure is a missing topic, a malformed number or an out-of-sequence number, and when every log has a first topic and every message log a readable number the failure is `InvalidMessageSequence` |
| MessageProofs.ScanReceipt | bmv/eth2/src/main/java/foundation/icon/btp/bmv/eth2/BTPMessageVerifier.java:245-256 | scanning the next receipt succeeds exactly when the receipts so far followed by it scan, and appends its payloads |
| MessageProofs.PrefixRejects | bmv/eth2/src/main/java/foundation/icon/btp/bmv/eth2/BTPMessageVerifier.java:242-257 | once a prefix of the receipts fails the scan, the whole list fails, whatever follows |
| MessageProofs.ScanReceipts | bmv/eth2/src/main/java/foundation/icon/btp/bmv/eth2/BTPMessageVerifier.java:242-257 | the loop over receipt proofs succeeds exactly when every receipt is proven and decodes and all their logs, receipt by receipt, scan in sequence. The messages are the payloads of all message logs in order, and the counter advances by their count. When every receipt is proven and all logs are readable, a failure is `InvalidMessageSequence` |
| MessageProofs.ProcessMessageProof | bmv/eth2/src/main/java/foundation/icon/btp/bmv/eth2/BTPMessageVerifier.java:232-265 | a message proof is accepted exactly when a block proof precedes it, its receipts root is proven under that block's state root, every receipt is proven and decodes, and the message logs continue the stored number. With no block proof it fails with `MissingBlockProof`; when the receipts root and every receipt are proven and every log is readable, a failure is `InvalidMessageSequence`. It returns every message payload in order; the stored number advances by their count and the last message slot becomes the block's slot when there is at least one message, and nothing changes otherwise |
| Verifier.CheckAccessible | bmv/eth2/src/main/java/foundation/icon/btp/bmv/eth2/BTPMessageVerifier.java:267-276 | access passes exactly when the previous BMC is on the stored network, the caller is the stored BMC and the current BMC is the stored BMC; the checks run in that order and the first that fails reports its own error: invalid previous BMC, invalid caller BMC, invalid current BMC |
| Verifier.SetSequence | bmv/eth2/src/main/java/foundation/icon/btp/bmv/eth2/BTPMessageVerifier.java:62-69 | the call succeeds exactly for the owner with a non-negative number, sets the last message number to it and changes nothing else; a non-owner and a negative number each report their own error |
| Verifier.ResumesAfterSetSequence | bmv/eth2/src/main/java/foundation/icon/btp/bmv/eth2/BTPMessageVerifier.java:62-69 | after the owner sets the number to n, the first message of the next accepted message proof must claim n + 1 |
| Verifier.Step | bmv/eth2/src/main/java/foundation/icon/btp/bmv/eth2/BTPMessageVerifier.java:80-95 | one accepted sub-message never lowers the finalized slot and keeps the configuration. Its message logs continue the counter, their payloads are appended, and the counter advances by their count. An accepted message proof follows a block proof whose state root proves its receipts root; an accepted block proof passed `processBlockProof` against the current state |
| Verifier.Relay | bmv/eth2/src/main/java/foundation/icon/btp/bmv/eth2/BTPMessageVerifier.java:77-100 | after an accepted relay message the finalized slot has not decreased and the configuration is unchanged. The collected messages are exactly the payloads of the message logs of all message proofs, numbered consecutively from the stored number without gap or repeat, and the stored number advances by their count |
| Verifier.StepExtends | bmv/eth2/src/main/java/foundation/icon/btp/bmv/eth2/BTPMessageVerifier.java:85-94 | one more accepted sub-message keeps the finalized slot at or above the starting one, keeps the configuration, keeps the logs seen so far in sequence from the starting number with its own logs appended, and keeps the stored number equal to the starting one plus the count of messages collected |
| Verifier.RelayPrefix | bmv/eth2/src/main/java/foundation/icon/btp/bmv/eth2/BTPMessageVerifier.java:79-95 | every prefix of an accepted relay message is accepted, so a rejected prefix rejects the whole relay message |
| Verifier.RelayAnchored | bmv/eth2/src/main/java/foundation/icon/btp/bmv/eth2/BTPMessageVerifier.java:78-94 | in an accepted relay message every message proof has a block proof before it, and its receipts root is proven under the state root of the latest such block |
| Verifier.LatestBlockProofIndex | bmv/eth2/src/main/java/foundation/icon/btp/bmv/eth2/BTPMessageVerifier.java:79-89 | the block proof a message proof would use is the sub-message at some earlier position with no block proof after it |
| Verifier.RelayBlockProof | bmv/eth2/src/main/java/foundation/icon/btp/bmv/eth2/BTPMessageVerifier.java:86-89 | in an accepted relay message each block proof passed `processBlockProof` against the state the sub-messages before it left |
| Verifier.RelayTrustChain | bmv/eth2/src/main/java/foundation/icon/btp/bmv/eth2/BTPMessageVerifier.java:78-94 | in an accepted relay message, the block proof each message proof uses is an earlier sub-message with no block proof in between, and that block proof passed `processBlockProof` against the state the sub-messages before it left |
| Verifier.ProcessSubMessage | bmv/eth2/src/main/java/foundation/icon/btp/bmv/eth2/BTPMessageVerifier.java:80-95 | dispatching one sub-message to its processing succeeds exactly when the step is accepted, with the state the step describes |
| Verifier.HandleRelayMessage | bmv/eth2/src/main/java/foundation/icon/btp/bmv/eth2/BTPMessageVerifier.java:72-101 | a relay message failing the access check is rejected with that check's error. Otherwise it is accepted exactly when every sub-message is accepted in order, returning the messages and the state of `Relay` |

## Left out

- The constructor: host-facing configuration at deployment. Its early return when every argument is absent and the sequence is zero, its rejection of a negative sequence, its write of the sequence only when none is stored or it is positive, and its zeroing of an unset last message slot are not modelled.
- `getStatus`, `getVersion` and `getProperties`: they report or read the stored record without changing it.
- Storage (`propertiesDB`) and logging: the model passes the record explicitly, and logging has no effect on it.
- Decoding of the relay message (`RelayMessage.fromBytes`) and of light-client headers and committees: the model starts from decoded values. An unknown sub-message tag therefore cannot occur.
- Parsing BTP addresses and `Address.fromString`: `Verifier.Access` holds the already-parsed network and account.
- BLS aggregate verification, the finality and next-committee branch checks, `SszUtils.verify`, `MerklePatriciaTree.prove`, hash-tree roots, keccak-256 and the byte-level RLP parser: cryptographic or library code outside the core, kept as arbitrary functions in `Env`.
- `Utils.computeSyncCommitteePeriod` is not part of this model beyond being slot divided by a positive constant.
- The execution-payload part of light-client headers and the beacon fields the verifier does not read.
- `Log.java` and the RLP reader library are not part of this model; their reading rules, including what `Log.getMessage()` returns, are the assumptions stated above.
- Reverting state on failure: the model returns `Err`, and the unchanged input record is the state after the revert.
- Verifier.HandleRelayMessage: beyond the access check, the contract states when a relay message is rejected but not which error it reports.
- Verifier.Relay: a rejected relay message is `None`, without the error.
- MessageProofs.ProcessMessageProof: a missing block proof is reported as `MissingBlockProof` where the source fails on a null dereference.
- The BMC (`LinkMessage.java`) and token-service (`NCSEvents.java`) files produce the messages the verifier reads; they are outside the verifier.
