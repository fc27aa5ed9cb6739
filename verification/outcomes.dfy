/** Failure-compatible wrappers shared by every part of the verifier model.

    The Java verifier signals every rejection by throwing a `BMVException`
    (`unknown(reason)` or `notVerifiable(slot)`), or lets a runtime exception
    escape (array index out of bounds, null dereference, number format); any of
    them aborts the whole relay call.  Here each rejection is a value of
    `Failure`, and an operation that can reject returns a `Result` or an
    `Outcome`.
 */
module Outcomes {

  /** A value that may be absent (a Java `null`). */
  datatype Option<+T> = None | Some(value: T)

  /** Why a call was rejected. */
  datatype Failure =
    // block update validation
    | SignatureSlotNotAfterAttested
    | AttestedSlotBeforeFinalized
    | NotVerifiable(bmvSlot: nat)
    | InvalidFinalityProof
    | InvalidNextSyncCommitteeProof
    | InvalidSignature
    // block update application
    | InvalidUpdatePeriod
    // block proof
    | BlockProofAhead(slot: nat)
    | HistoricalProofEmpty
    | InvalidHashTree
    | InvalidSszProof
    // message proof
    | MissingBlockProof
    | InvalidTrieProof
    | MalformedReceipt
    | TopicMissing(index: nat)
    | MalformedSequence
    | InvalidMessageSequence
    // access control and administration
    | InvalidPrevBmc
    | InvalidCallerBmc
    | InvalidCurrentBmc
    | OnlyOwner
    | NegativeSequence

  /** The value of a successful call, or why it failed. */
  datatype Result<+T> = Ok(value: T) | Err(error: Failure)

  /** A check that either passes or fails, carrying no value. */
  datatype Outcome = Pass | Fail(error: Failure)
}
