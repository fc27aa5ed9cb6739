/** The values the eth2 message verifier works on: beacon headers, sync
    committees, the three kinds of relayed sub-message, the verifier's
    persistent state, and the cryptographic and proof primitives it calls.

    The primitives (BLS aggregate verification, SSZ Merkle-branch checks,
    Merkle-Patricia trie proofs, hash-tree roots, keccak-256 and the RLP byte
    parser) are implemented outside the verifier; here they are fields of an
    `Env` whose values are arbitrary, so every property proved holds whatever
    they compute.
 */
module Eth2Types {
  import opened Outcomes
  import opened BigIntegers
  import opened Receipts

  type PositiveNat = n: nat | 0 < n witness 1

  /** An account address of the host chain, left opaque. */
  type Address = Bytes

  /** The beacon part of a light-client header; the execution part of the
      light-client header is not read by the verifier. */
  datatype BeaconHeader = BeaconHeader(
    slot: nat,
    proposerIndex: nat,
    parentRoot: Bytes,
    stateRoot: Bytes,
    bodyRoot: Bytes)

  datatype SyncCommittee = SyncCommittee(blsPublicKeys: seq<Bytes>, aggregatePubKey: Bytes)

  /** A Merkle branch in an SSZ hash tree: the leaf, its sibling hashes and
      the generalized index of the leaf. */
  datatype SszProof = SszProof(gindex: nat, leaf: Bytes, branch: seq<Bytes>)

  /** A light-client update: an attested header, the header it finalizes, and
      possibly the next sync committee, signed by a sync aggregate in
      `signatureSlot`. */
  datatype BlockUpdate = BlockUpdate(
    attestedHeader: BeaconHeader,
    finalizedHeader: BeaconHeader,
    finalityBranch: seq<Bytes>,
    nextSyncCommittee: Option<SyncCommittee>,
    nextSyncCommitteeBranch: seq<Bytes>,
    syncCommitteeBits: seq<bool>,
    syncCommitteeSignature: Bytes,
    signatureSlot: nat)

  /** Inclusion of a block under the trusted state root, possibly through a
      historical summary. */
  datatype BlockProof = BlockProof(
    header: BeaconHeader,
    proof: SszProof,
    historicalProof: Option<SszProof>)

  /** A trie key and the trie nodes proving the receipt stored under it. */
  datatype ReceiptProof = ReceiptProof(key: Bytes, proofs: seq<Bytes>)

  /** The receipts root of a block, proven under its state root, and the
      receipts proven under that receipts root. */
  datatype MessageProof = MessageProof(receiptRootProof: SszProof, receiptProofs: seq<ReceiptProof>)

  /** One entry of a relay message, tagged by kind. */
  datatype SubMessage =
    | BlockUpdateMsg(update: BlockUpdate)
    | BlockProofMsg(blockProof: BlockProof)
    | MessageProofMsg(messageProof: MessageProof)

  /** `BMVProperties`, the verifier's single persistent record. */
  datatype Properties = Properties(
    network: string,
    bmc: Address,
    genesisValidatorsHash: Bytes,
    currentSyncCommittee: SyncCommittee,
    nextSyncCommittee: Option<SyncCommittee>,
    finalizedHeader: BeaconHeader,
    lastMsgSeq: int,
    lastMsgSlot: nat)

  /** The primitives the verifier relies on but does not define.
      `sszVerify(root, proof)` is `SszUtils.verify`; `mptProve(root, key,
      nodes)` is `MerklePatriciaTree.prove`; the three `BlockUpdate` checks are
      `verifyFinalizedHeader`, `verifyNextSyncCommittee` and
      `verifySyncAggregate`. */
  datatype Env = Env(
    slotsPerPeriod: PositiveNat,
    keccak256: Bytes -> Bytes,
    hashTreeRoot: BeaconHeader -> Bytes,
    sszVerify: (Bytes, SszProof) -> bool,
    mptProve: (Bytes, Bytes, seq<Bytes>) -> Option<Bytes>,
    rlpParse: Bytes -> Option<RlpItem>,
    finalityBranchValid: BlockUpdate -> bool,
    nextSyncCommitteeBranchValid: BlockUpdate -> bool,
    syncAggregateValid: (BlockUpdate, seq<Bytes>, Bytes) -> bool)

  /** `Utils.computeSyncCommitteePeriod`: the sync-committee period of a slot. */
  function Period(env: Env, slot: nat): nat
  {
    slot / env.slotsPerPeriod
  }

  /** a <= b scales by a non-negative factor. */
  lemma MulMonotone(a: int, b: int, c: nat)
    requires a <= b
    ensures a * c <= b * c
  {
    assert b * c - a * c == (b - a) * c;
  }

  /** A later slot never lies in an earlier period. */
  lemma PeriodMonotone(env: Env, a: nat, b: nat)
    requires a <= b
    ensures Period(env, a) <= Period(env, b)
  {
    var p := env.slotsPerPeriod;
    var qa, qb := a / p, b / p;
    assert qa * p + a % p == a && qb * p + b % p == b;
    if qb < qa {
      MulMonotone(qb + 1, qa, p);
    }
  }

  /** Contrapositive: a later period means a strictly later slot. */
  lemma LaterPeriodLaterSlot(env: Env, a: nat, b: nat)
    requires Period(env, a) < Period(env, b)
    ensures a < b
  {
    if b <= a {
      PeriodMonotone(env, b, a);
    }
  }
}
