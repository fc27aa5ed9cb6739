/** Sync-committee block updates: `validateBlockUpdate` and
    `applyBlockUpdate`.

    The rules follow the Altair light-client sync protocol
    (`validate_light_client_update` / `apply_light_client_update`): an update
    is accepted only when it is signed by the sync committee the verifier
    trusts for the signature's period; applying it may learn or rotate the
    next committee and advances the finalized header monotonically.
 */
module BlockUpdates {
  import opened Outcomes
  import opened Eth2Types

  /** The committee that must have signed: the current committee within the
      stored finalized period, the stored next committee in the period after. */
  function SigningCommittee(env: Env, u: BlockUpdate, p: Properties): SyncCommittee
    requires p.nextSyncCommittee.Some? || Period(env, u.signatureSlot) == Period(env, p.finalizedHeader.slot)
  {
    if Period(env, u.signatureSlot) == Period(env, p.finalizedHeader.slot) then p.currentSyncCommittee
    else p.nextSyncCommittee.value
  }

  /** The slot-order and period checks of `validateBlockUpdate`: the
      signature follows the attested header, which does not precede the
      finalized one, and the signature period is one whose committee the
      verifier trusts. */
  predicate InReach(env: Env, u: BlockUpdate, p: Properties)
  {
    var bmvPeriod := Period(env, p.finalizedHeader.slot);
    var signaturePeriod := Period(env, u.signatureSlot);
    && u.attestedHeader.slot < u.signatureSlot
    && u.finalizedHeader.slot <= u.attestedHeader.slot
    && (p.nextSyncCommittee.Some? ==> signaturePeriod in {bmvPeriod, bmvPeriod + 1})
    && (p.nextSyncCommittee.None? ==> signaturePeriod == bmvPeriod)
  }

  /** `validateBlockUpdate`. */
  function ValidateBlockUpdate(env: Env, u: BlockUpdate, p: Properties): (r: Outcome)
    ensures r.Pass? <==>
      var bmvPeriod := Period(env, p.finalizedHeader.slot);
      var signaturePeriod := Period(env, u.signatureSlot);
      && u.attestedHeader.slot < u.signatureSlot
      && u.finalizedHeader.slot <= u.attestedHeader.slot
      && (p.nextSyncCommittee.Some? ==> signaturePeriod in {bmvPeriod, bmvPeriod + 1})
      && (p.nextSyncCommittee.None? ==> signaturePeriod == bmvPeriod)
      && env.finalityBranchValid(u)
      && (u.nextSyncCommittee.Some? ==> env.nextSyncCommitteeBranchValid(u))
      && env.syncAggregateValid(
           u,
           (if signaturePeriod == bmvPeriod then p.currentSyncCommittee else p.nextSyncCommittee.value).blsPublicKeys,
           p.genesisValidatorsHash)
    ensures u.signatureSlot <= u.attestedHeader.slot ==> r == Fail(SignatureSlotNotAfterAttested)
    ensures u.attestedHeader.slot < u.signatureSlot && u.attestedHeader.slot < u.finalizedHeader.slot ==>
      r == Fail(AttestedSlotBeforeFinalized)
    ensures u.finalizedHeader.slot <= u.attestedHeader.slot < u.signatureSlot ==>
      var bmvPeriod := Period(env, p.finalizedHeader.slot);
      var signaturePeriod := Period(env, u.signatureSlot);
      (signaturePeriod != bmvPeriod && (p.nextSyncCommittee.None? || signaturePeriod != bmvPeriod + 1)
       <==> r == Fail(NotVerifiable(p.finalizedHeader.slot)))
    ensures InReach(env, u, p) && !env.finalityBranchValid(u) ==> r == Fail(InvalidFinalityProof)
    ensures InReach(env, u, p) && env.finalityBranchValid(u)
            && u.nextSyncCommittee.Some? && !env.nextSyncCommitteeBranchValid(u) ==>
      r == Fail(InvalidNextSyncCommitteeProof)
    ensures InReach(env, u, p) && env.finalityBranchValid(u)
            && (u.nextSyncCommittee.Some? ==> env.nextSyncCommitteeBranchValid(u))
            && !env.syncAggregateValid(u, SigningCommittee(env, u, p).blsPublicKeys, p.genesisValidatorsHash) ==>
      r == Fail(InvalidSignature)
  {
    var bmvSlot := p.finalizedHeader.slot;
    var bmvPeriod := Period(env, bmvSlot);
    var signaturePeriod := Period(env, u.signatureSlot);
    var isBmvPeriod := signaturePeriod == bmvPeriod;
    if u.signatureSlot <= u.attestedHeader.slot then Fail(SignatureSlotNotAfterAttested)
    else if u.attestedHeader.slot < u.finalizedHeader.slot then Fail(AttestedSlotBeforeFinalized)
    else if p.nextSyncCommittee.Some? && !isBmvPeriod && signaturePeriod != bmvPeriod + 1 then Fail(NotVerifiable(bmvSlot))
    else if p.nextSyncCommittee.None? && !isBmvPeriod then Fail(NotVerifiable(bmvSlot))
    else if !env.finalityBranchValid(u) then Fail(InvalidFinalityProof)
    else if u.nextSyncCommittee.Some? && !env.nextSyncCommitteeBranchValid(u) then Fail(InvalidNextSyncCommitteeProof)
    else if !env.syncAggregateValid(u, SigningCommittee(env, u, p).blsPublicKeys, p.genesisValidatorsHash) then Fail(InvalidSignature)
    else Pass
  }

  /** `applyBlockUpdate`, on an update already validated. */
  function ApplyBlockUpdate(env: Env, u: BlockUpdate, p: Properties): (r: Result<Properties>)
    ensures r.Err? <==>
      p.nextSyncCommittee.None? && Period(env, u.finalizedHeader.slot) != Period(env, p.finalizedHeader.slot)
    ensures r.Err? ==> r.error == InvalidUpdatePeriod
    ensures r.Ok? ==>
      r.value.finalizedHeader == (if u.finalizedHeader.slot > p.finalizedHeader.slot then u.finalizedHeader else p.finalizedHeader)
    ensures r.Ok? && p.nextSyncCommittee.None? ==>
      r.value.currentSyncCommittee == p.currentSyncCommittee && r.value.nextSyncCommittee == u.nextSyncCommittee
    ensures r.Ok? && p.nextSyncCommittee.Some? ==>
      if Period(env, u.finalizedHeader.slot) == Period(env, p.finalizedHeader.slot) + 1
      then r.value.currentSyncCommittee == p.nextSyncCommittee.value && r.value.nextSyncCommittee == u.nextSyncCommittee
      else r.value.currentSyncCommittee == p.currentSyncCommittee && r.value.nextSyncCommittee == p.nextSyncCommittee
    ensures r.Ok? ==>
      r.value.(currentSyncCommittee := p.currentSyncCommittee,
               nextSyncCommittee := p.nextSyncCommittee,
               finalizedHeader := p.finalizedHeader) == p
  {
    var bmvSlot := p.finalizedHeader.slot;
    var bmvPeriod := Period(env, bmvSlot);
    var finalizedPeriod := Period(env, u.finalizedHeader.slot);
    if p.nextSyncCommittee.None? && finalizedPeriod != bmvPeriod then Err(InvalidUpdatePeriod)
    else
      var committees :=
        if p.nextSyncCommittee.None? then p.(nextSyncCommittee := u.nextSyncCommittee)
        else if finalizedPeriod == bmvPeriod + 1 then
          p.(currentSyncCommittee := p.nextSyncCommittee.value, nextSyncCommittee := u.nextSyncCommittee)
        else p;
      Ok(if u.finalizedHeader.slot > bmvSlot then committees.(finalizedHeader := u.finalizedHeader) else committees)
  }

  /** `processBlockUpdate`: validate, then apply. */
  function ProcessBlockUpdate(env: Env, u: BlockUpdate, p: Properties): (r: Result<Properties>)
    ensures r.Ok? ==> r.value.finalizedHeader.slot >= p.finalizedHeader.slot
    ensures r.Ok? ==> r.value.lastMsgSeq == p.lastMsgSeq && r.value.lastMsgSlot == p.lastMsgSlot
    ensures r.Ok? ==>
      && r.value.network == p.network
      && r.value.bmc == p.bmc
      && r.value.genesisValidatorsHash == p.genesisValidatorsHash
  {
    var v := ValidateBlockUpdate(env, u, p);
    if v.Fail? then Err(v.error) else ApplyBlockUpdate(env, u, p)
  }

  /** An accepted update finalizes nothing beyond its signature's period,
      which is at most one period past the stored finalized header. */
  lemma ValidatedUpdateReach(env: Env, u: BlockUpdate, p: Properties)
    requires ValidateBlockUpdate(env, u, p).Pass?
    ensures Period(env, u.finalizedHeader.slot) <= Period(env, u.signatureSlot) <= Period(env, p.finalizedHeader.slot) + 1
  {
    PeriodMonotone(env, u.finalizedHeader.slot, u.signatureSlot);
  }

  /** Across one accepted update the finalized period stays or advances by
      exactly one; it never goes back and never skips a period. */
  lemma FinalizedPeriodStep(env: Env, u: BlockUpdate, p: Properties)
    requires ProcessBlockUpdate(env, u, p).Ok?
    ensures var q := ProcessBlockUpdate(env, u, p).value;
      Period(env, p.finalizedHeader.slot) <= Period(env, q.finalizedHeader.slot) <= Period(env, p.finalizedHeader.slot) + 1
  {
    var q := ProcessBlockUpdate(env, u, p).value;
    ValidatedUpdateReach(env, u, p);
    PeriodMonotone(env, p.finalizedHeader.slot, q.finalizedHeader.slot);
  }

  /** Committee rotation across one accepted update: with a next committee
      stored, it is promoted to current (and the update's candidate becomes
      next) exactly when the stored finalized period advances by one;
      otherwise both committees stay.  With none stored, the current
      committee stays, the candidate becomes next, and the finalized period
      does not move. */
  lemma CommitteeRotation(env: Env, u: BlockUpdate, p: Properties)
    requires ProcessBlockUpdate(env, u, p).Ok?
    ensures var q := ProcessBlockUpdate(env, u, p).value;
      var advanced := Period(env, q.finalizedHeader.slot) == Period(env, p.finalizedHeader.slot) + 1;
      && (p.nextSyncCommittee.Some? && advanced ==>
            q.currentSyncCommittee == p.nextSyncCommittee.value && q.nextSyncCommittee == u.nextSyncCommittee)
      && (p.nextSyncCommittee.Some? && !advanced ==>
            q.currentSyncCommittee == p.currentSyncCommittee && q.nextSyncCommittee == p.nextSyncCommittee)
      && (p.nextSyncCommittee.None? ==>
            && q.currentSyncCommittee == p.currentSyncCommittee
            && q.nextSyncCommittee == u.nextSyncCommittee
            && Period(env, q.finalizedHeader.slot) == Period(env, p.finalizedHeader.slot))
  {
    var bmvPeriod := Period(env, p.finalizedHeader.slot);
    if Period(env, u.finalizedHeader.slot) == bmvPeriod + 1 {
      LaterPeriodLaterSlot(env, p.finalizedHeader.slot, u.finalizedHeader.slot);
    }
  }

  /** A committee only becomes current if it was the stored next committee,
      and only when the finalized period advances by exactly one. */
  lemma PromotedOnlyFromNext(env: Env, u: BlockUpdate, p: Properties)
    requires ProcessBlockUpdate(env, u, p).Ok?
    requires ProcessBlockUpdate(env, u, p).value.currentSyncCommittee != p.currentSyncCommittee
    ensures var q := ProcessBlockUpdate(env, u, p).value;
      && p.nextSyncCommittee == Some(q.currentSyncCommittee)
      && Period(env, q.finalizedHeader.slot) == Period(env, p.finalizedHeader.slot) + 1
  {
    CommitteeRotation(env, u, p);
  }
}
