/** The verifier's external entry points: `handleRelayMessage`, its access
    check, and the owner's `setSequence`.

    A relay message is a list of sub-messages processed in order against the
    stored state.  Each step reads the state the previous step left; a
    message proof uses the most recent block proof before it.  Any failure
    rejects the whole relay message and the platform reverts every state
    change, so a rejected call leaves the stored state as it was: here that is
    a `Result` the caller discards.
 */
module Verifier {
  import opened Outcomes
  import opened BigIntegers
  import opened Receipts
  import opened Eth2Types
  import opened BlockUpdates
  import opened BlockProofs
  import opened MessageProofs

  /** What `checkAccessible` compares with the stored state: the transaction
      caller, the account part of the current BMC address and the network
      part of the previous BMC address. */
  datatype Access = Access(caller: Address, currentBmcAccount: Address, previousNetwork: string)

  /** `checkAccessible`: the relay must come from the configured source
      network, through the configured BMC, addressed to that BMC. */
  function CheckAccessible(p: Properties, a: Access): (r: Outcome)
    ensures r.Pass? <==> a.previousNetwork == p.network && a.caller == p.bmc && a.currentBmcAccount == p.bmc
    ensures a.previousNetwork != p.network ==> r == Fail(InvalidPrevBmc)
    ensures a.previousNetwork == p.network && a.caller != p.bmc ==> r == Fail(InvalidCallerBmc)
    ensures a.previousNetwork == p.network && a.caller == p.bmc && a.currentBmcAccount != p.bmc ==>
      r == Fail(InvalidCurrentBmc)
    ensures r.Fail? ==> r.error in {InvalidPrevBmc, InvalidCallerBmc, InvalidCurrentBmc}
  {
    if p.network != a.previousNetwork then Fail(InvalidPrevBmc)
    else if a.caller != p.bmc then Fail(InvalidCallerBmc)
    else if a.currentBmcAccount != p.bmc then Fail(InvalidCurrentBmc)
    else Pass
  }

  /** `setSequence`: the contract owner may reset the last accepted message
      number to any non-negative value; nothing else changes. */
  function SetSequence(p: Properties, caller: Address, owner: Address, sequence: int): (r: Result<Properties>)
    ensures r.Ok? <==> caller == owner && sequence >= 0
    ensures caller != owner ==> r == Err(OnlyOwner)
    ensures caller == owner && sequence < 0 ==> r == Err(NegativeSequence)
    ensures r.Ok? ==> r.value.lastMsgSeq == sequence && r.value.(lastMsgSeq := p.lastMsgSeq) == p
  {
    if caller != owner then Err(OnlyOwner)
    else if sequence < 0 then Err(NegativeSequence)
    else Ok(p.(lastMsgSeq := sequence))
  }

  /** After the owner sets the number to n, the next accepted message proof
      must start its messages at n + 1. */
  lemma ResumesAfterSetSequence(env: Env, p: Properties, caller: Address, owner: Address, n: int,
                                mp: MessageProof, bp: Option<BlockProof>)
    requires SetSequence(p, caller, owner, n).Ok?
    requires MessageProofAccepted(env, mp, bp, SetSequence(p, caller, owner, n).value.lastMsgSeq)
    requires |Matching(MessageLogs(env, mp), EventTopic(env))| > 0
    ensures ClaimedSequence(Matching(MessageLogs(env, mp), EventTopic(env))[0]) == Some(n + 1)
  {
  }

  /** The block proof a message proof at the end of `subs` would use: the
      last block proof among them. */
  function LatestBlockProof(subs: seq<SubMessage>): Option<BlockProof>
  {
    if |subs| == 0 then None
    else if subs[|subs| - 1].BlockProofMsg? then Some(subs[|subs| - 1].blockProof)
    else LatestBlockProof(subs[..|subs| - 1])
  }

  /** The logs a sub-message contributes: those of a message proof's
      receipts, none for the other kinds. */
  function SubmittedLogs(env: Env, sub: SubMessage): seq<Log>
  {
    if sub.MessageProofMsg? then MessageLogs(env, sub.messageProof) else []
  }

  /** The logs of all message proofs of a relay message, in order. */
  function RelayLogs(env: Env, subs: seq<SubMessage>): seq<Log>
  {
    if |subs| == 0 then []
    else RelayLogs(env, subs[..|subs| - 1]) + SubmittedLogs(env, subs[|subs| - 1])
  }

  /** The state `handleRelayMessage` threads through its loop: the stored
      properties, the last block proof seen, and the messages collected. */
  datatype RelayState = RelayState(props: Properties, latest: Option<BlockProof>, messages: seq<Bytes>)

  /** One iteration of the loop of `handleRelayMessage`; `None` rejects the
      relay message. */
  function Step(env: Env, st: RelayState, sub: SubMessage): (r: Option<RelayState>)
    ensures r.Some? ==>
      && r.value.props.finalizedHeader.slot >= st.props.finalizedHeader.slot
      && r.value.props.network == st.props.network
      && r.value.props.bmc == st.props.bmc
      && r.value.props.genesisValidatorsHash == st.props.genesisValidatorsHash
    ensures r.Some? ==>
      && InSequence(SubmittedLogs(env, sub), EventTopic(env), st.props.lastMsgSeq)
      && r.value.messages == st.messages + Payloads(Matching(SubmittedLogs(env, sub), EventTopic(env)))
      && r.value.props.lastMsgSeq == st.props.lastMsgSeq + |r.value.messages| - |st.messages|
    ensures r.Some? && sub.MessageProofMsg? ==>
      && st.latest.Some?
      && env.sszVerify(st.latest.value.header.stateRoot, sub.messageProof.receiptRootProof)
    ensures r.Some? && sub.BlockProofMsg? ==> ProcessBlockProof(env, sub.blockProof, st.props).Pass?
    ensures r.Some? ==> r.value.latest == (if sub.BlockProofMsg? then Some(sub.blockProof) else st.latest)
  {
    match sub
    case BlockUpdateMsg(u) =>
      var q := ProcessBlockUpdate(env, u, st.props);
      if q.Err? then None
      else
        InSequenceEmpty(EventTopic(env), st.props.lastMsgSeq);
        Some(st.(props := q.value))
    case BlockProofMsg(bp) =>
      if ProcessBlockProof(env, bp, st.props).Fail? then None
      else
        InSequenceEmpty(EventTopic(env), st.props.lastMsgSeq);
        Some(st.(latest := Some(bp)))
    case MessageProofMsg(mp) =>
      if !MessageProofAccepted(env, mp, st.latest, st.props.lastMsgSeq) then None
      else
        var msgs := Payloads(Matching(MessageLogs(env, mp), EventTopic(env)));
        var props :=
          if |msgs| == 0 then st.props
          else st.props.(lastMsgSeq := st.props.lastMsgSeq + |msgs|, lastMsgSlot := st.latest.value.header.slot);
        Some(RelayState(props, st.latest, st.messages + msgs))
  }

  /** The loop of `handleRelayMessage` as a function: the state after the
      sub-messages `subs`, or `None` once one of them is rejected.  The
      stored finalized slot never decreases, the configuration never
      changes, the collected messages are exactly the message logs of all
      message proofs with numbers continuing the stored one without gap or
      repeat, and the stored number advances by their count. */
  function Relay(env: Env, p: Properties, subs: seq<SubMessage>): (r: Option<RelayState>)
    ensures r.Some? ==>
      && r.value.props.finalizedHeader.slot >= p.finalizedHeader.slot
      && r.value.props.network == p.network
      && r.value.props.bmc == p.bmc
      && r.value.props.genesisValidatorsHash == p.genesisValidatorsHash
    ensures r.Some? ==>
      && InSequence(RelayLogs(env, subs), EventTopic(env), p.lastMsgSeq)
      && r.value.messages == Payloads(Matching(RelayLogs(env, subs), EventTopic(env)))
      && r.value.props.lastMsgSeq == p.lastMsgSeq + |r.value.messages|
    ensures r.Some? ==> r.value.latest == LatestBlockProof(subs)
  {
    if |subs| == 0 then
      InSequenceEmpty(EventTopic(env), p.lastMsgSeq);
      Some(RelayState(p, None, []))
    else
      var front := subs[..|subs| - 1];
      var last := subs[|subs| - 1];
      match Relay(env, p, front)
      case None => None
      case Some(st) =>
        var r := Step(env, st, last);
        if r.None? then None
        else
          StepExtends(env, p, st, last, RelayLogs(env, front));
          r
  }

  /** The bookkeeping behind `Relay`: one more accepted sub-message keeps
      the stored state's invariants relative to the start of the relay
      message, and its logs extend the logs seen so far. */
  lemma StepExtends(env: Env, p: Properties, st: RelayState, sub: SubMessage, before: seq<Log>)
    requires st.props.finalizedHeader.slot >= p.finalizedHeader.slot
    requires st.props.network == p.network && st.props.bmc == p.bmc
    requires st.props.genesisValidatorsHash == p.genesisValidatorsHash
    requires InSequence(before, EventTopic(env), p.lastMsgSeq)
    requires st.messages == Payloads(Matching(before, EventTopic(env)))
    requires st.props.lastMsgSeq == p.lastMsgSeq + |st.messages|
    requires Step(env, st, sub).Some?
    ensures var next := Step(env, st, sub).value;
      && next.props.finalizedHeader.slot >= p.finalizedHeader.slot
      && next.props.network == p.network
      && next.props.bmc == p.bmc
      && next.props.genesisValidatorsHash == p.genesisValidatorsHash
      && InSequence(before + SubmittedLogs(env, sub), EventTopic(env), p.lastMsgSeq)
      && next.messages == Payloads(Matching(before + SubmittedLogs(env, sub), EventTopic(env)))
      && next.props.lastMsgSeq == p.lastMsgSeq + |next.messages|
  {
    var topic := EventTopic(env);
    var added := SubmittedLogs(env, sub);
    InSequenceAppend(before, added, topic, p.lastMsgSeq);
    MatchingAppend(before, added, topic);
    PayloadsAppend(Matching(before, topic), Matching(added, topic));
  }

  /** Every prefix of an accepted relay message is accepted; equivalently,
      a relay message with a rejected prefix is rejected. */
  lemma {:induction false} RelayPrefix(env: Env, p: Properties, subs: seq<SubMessage>, j: nat)
    requires j <= |subs|
    ensures Relay(env, p, subs).Some? ==> Relay(env, p, subs[..j]).Some?
    decreases |subs|
  {
    if j < |subs| {
      var front := subs[..|subs| - 1];
      assert front[..j] == subs[..j];
      RelayPrefix(env, p, front, j);
    } else {
      assert subs[..j] == subs;
    }
  }

  /** In an accepted relay message every message proof follows a block proof,
      and its receipts root is proven under the state root of the latest one
      before it. */
  lemma RelayAnchored(env: Env, p: Properties, subs: seq<SubMessage>, k: nat)
    requires k < |subs| && subs[k].MessageProofMsg?
    ensures Relay(env, p, subs).Some? ==>
      && LatestBlockProof(subs[..k]).Some?
      && env.sszVerify(LatestBlockProof(subs[..k]).value.header.stateRoot, subs[k].messageProof.receiptRootProof)
  {
    RelayPrefix(env, p, subs, k + 1);
    var prefix := subs[..k + 1];
    assert prefix[..k] == subs[..k];
  }

  /** Where the latest block proof sits: at some position with no block
      proof after it. */
  lemma {:induction false} LatestBlockProofIndex(subs: seq<SubMessage>) returns (j: nat)
    requires LatestBlockProof(subs).Some?
    ensures j < |subs| && subs[j] == BlockProofMsg(LatestBlockProof(subs).value)
    ensures forall i :: j < i < |subs| ==> !subs[i].BlockProofMsg?
    decreases |subs|
  {
    var n := |subs| - 1;
    if subs[n].BlockProofMsg? {
      j := n;
    } else {
      var front := subs[..n];
      j := LatestBlockProofIndex(front);
      forall i | j < i < |subs|
        ensures !subs[i].BlockProofMsg?
      {
        if i < n {
          assert front[i] == subs[i];
        }
      }
    }
  }

  /** An accepted relay message accepts each of its block proofs against
      the state the sub-messages before it left. */
  lemma RelayBlockProof(env: Env, p: Properties, subs: seq<SubMessage>, j: nat)
    requires j < |subs| && subs[j].BlockProofMsg?
    ensures Relay(env, p, subs).Some? ==>
      && Relay(env, p, subs[..j]).Some?
      && ProcessBlockProof(env, subs[j].blockProof, Relay(env, p, subs[..j]).value.props).Pass?
  {
    RelayPrefix(env, p, subs, j + 1);
    var upto := subs[..j + 1];
    assert upto[..|upto| - 1] == subs[..j];
    assert upto[|upto| - 1] == subs[j];
  }

  /** The chain of trust behind every accepted message proof: the block
      proof it uses is an earlier sub-message of the same relay message,
      with no block proof between the two, and that block proof was itself
      accepted against the state the sub-messages before it left. */
  lemma RelayTrustChain(env: Env, p: Properties, subs: seq<SubMessage>, k: nat)
    requires k < |subs| && subs[k].MessageProofMsg?
    ensures Relay(env, p, subs).Some? ==>
      && LatestBlockProof(subs[..k]).Some?
      && (exists j :: 0 <= j < k
            && subs[j] == BlockProofMsg(LatestBlockProof(subs[..k]).value)
            && (forall i :: j < i < k ==> !subs[i].BlockProofMsg?)
            && Relay(env, p, subs[..j]).Some?
            && ProcessBlockProof(env, subs[j].blockProof, Relay(env, p, subs[..j]).value.props).Pass?)
  {
    if Relay(env, p, subs).Some? {
      RelayAnchored(env, p, subs, k);
      var before := subs[..k];
      var j := LatestBlockProofIndex(before);
      assert before[j] == subs[j];
      forall i | j < i < k
        ensures !subs[i].BlockProofMsg?
      {
        assert before[i] == subs[i];
      }
      RelayBlockProof(env, p, subs, j);
    }
  }

  /** The body of the loop of `handleRelayMessage`: dispatch one
      sub-message on its kind. */
  method ProcessSubMessage(env: Env, st: RelayState, sub: SubMessage) returns (res: Result<RelayState>)
    ensures res.Ok? <==> Step(env, st, sub).Some?
    ensures res.Ok? ==> res.value == Step(env, st, sub).value
  {
    match sub {
      case BlockUpdateMsg(u) =>
        var q := ProcessBlockUpdate(env, u, st.props);
        if q.Err? {
          return Err(q.error);
        }
        return Ok(st.(props := q.value));
      case BlockProofMsg(bp) =>
        var check := ProcessBlockProof(env, bp, st.props);
        if check.Fail? {
          return Err(check.error);
        }
        return Ok(st.(latest := Some(bp)));
      case MessageProofMsg(mp) =>
        var extracted := ProcessMessageProof(env, mp, st.latest, st.props);
        if extracted.Err? {
          return Err(extracted.error);
        }
        return Ok(RelayState(extracted.value.props, st.latest, st.messages + extracted.value.messages));
    }
  }

  /** `handleRelayMessage`. */
  method HandleRelayMessage(env: Env, p: Properties, a: Access, subs: seq<SubMessage>)
    returns (res: Result<Extraction>)
    ensures CheckAccessible(p, a).Fail? ==> res == Err(CheckAccessible(p, a).error)
    ensures res.Ok? <==> CheckAccessible(p, a).Pass? && Relay(env, p, subs).Some?
    ensures res.Ok? ==>
      && res.value.props == Relay(env, p, subs).value.props
      && res.value.messages == Relay(env, p, subs).value.messages
  {
    var access := CheckAccessible(p, a);
    if access.Fail? {
      return Err(access.error);
    }
    var st := RelayState(p, None, []);
    var i := 0;
    while i < |subs|
      invariant 0 <= i <= |subs|
      invariant Relay(env, p, subs[..i]) == Some(st)
    {
      assert subs[..i + 1][..i] == subs[..i];
      var next := ProcessSubMessage(env, st, subs[i]);
      if next.Err? {
        RelayPrefix(env, p, subs, i + 1);
        return Err(next.error);
      }
      st := next.value;
      i := i + 1;
    }
    assert subs[..i] == subs;
    return Ok(Extraction(st.messages, st.props));
  }
}
