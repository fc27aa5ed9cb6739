/** Block proofs: `processBlockProof`.

    A block proof shows that a beacon block is part of the state the verifier
    trusts (the state root of its finalized header).  A block within the
    retention window of the beacon state's block roots (8192 slots,
    SLOTS_PER_HISTORICAL_ROOT) is proven with one SSZ branch; an older block
    needs a second branch through a historical summary.
 */
module BlockProofs {
  import opened Outcomes
  import opened BigIntegers
  import opened Eth2Types

  /** The retention window, in slots. */
  const HistoricalLimit: nat := 8192

  /** `leaf` reaches `root` through `path`: the first proof's leaf is `leaf`,
      each proof verifies against the leaf of the one after it, and the last
      verifies against `root`. */
  predicate Anchored(env: Env, leaf: Bytes, path: seq<SszProof>, root: Bytes)
    decreases |path|
  {
    && |path| > 0
    && path[0].leaf == leaf
    && if |path| == 1 then env.sszVerify(root, path[0])
       else env.sszVerify(path[1].leaf, path[0]) && Anchored(env, path[1].leaf, path[1..], root)
  }

  /** `processBlockProof`.  It never changes the verifier's state. */
  function ProcessBlockProof(env: Env, bp: BlockProof, p: Properties): (r: Outcome)
    ensures r.Pass? <==>
      var root := env.hashTreeRoot(bp.header);
      var stateRoot := p.finalizedHeader.stateRoot;
      && bp.header.slot <= p.finalizedHeader.slot
      && if bp.header.slot + HistoricalLimit < p.finalizedHeader.slot
         then bp.historicalProof.Some? && Anchored(env, root, [bp.historicalProof.value, bp.proof], stateRoot)
         else Anchored(env, root, [bp.proof], stateRoot)
    ensures p.finalizedHeader.slot < bp.header.slot ==> r == Fail(BlockProofAhead(bp.header.slot))
    ensures bp.header.slot + HistoricalLimit < p.finalizedHeader.slot && bp.historicalProof.None? ==>
      r == Fail(HistoricalProofEmpty)
    ensures bp.header.slot + HistoricalLimit < p.finalizedHeader.slot && bp.historicalProof.Some?
            && env.hashTreeRoot(bp.header) != bp.historicalProof.value.leaf ==>
      r == Fail(InvalidHashTree)
    ensures bp.header.slot <= p.finalizedHeader.slot <= bp.header.slot + HistoricalLimit
            && bp.proof.leaf != env.hashTreeRoot(bp.header) ==>
      r == Fail(InvalidHashTree)
  {
    var bmvFinalizedSlot := p.finalizedHeader.slot;
    var slot := bp.header.slot;
    var root := env.hashTreeRoot(bp.header);
    var stateRoot := p.finalizedHeader.stateRoot;
    if bmvFinalizedSlot < slot then Fail(BlockProofAhead(slot))
    else if slot + HistoricalLimit < bmvFinalizedSlot then
      if bp.historicalProof.None? then Fail(HistoricalProofEmpty)
      else if root != bp.historicalProof.value.leaf then Fail(InvalidHashTree)
      else if !env.sszVerify(stateRoot, bp.proof) then Fail(InvalidSszProof)
      else if !env.sszVerify(bp.proof.leaf, bp.historicalProof.value) then Fail(InvalidSszProof)
      else Pass
    else if bp.proof.leaf != root then Fail(InvalidHashTree)
    else if !env.sszVerify(stateRoot, bp.proof) then Fail(InvalidSszProof)
    else Pass
  }
}
