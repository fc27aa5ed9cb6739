/** Message proofs: `processMessageProof`.

    A message proof carries the receipts root of a block (proven under the
    state root of the block established by the preceding block proof) and
    trie proofs of receipts under that root.  Every log of those receipts
    whose first topic is the `Message(string,uint256,bytes)` event signature
    is a BTP message; its third topic claims the message's sequence number,
    which must continue the stored `lastMsgSeq` without gap or repeat.
 */
module MessageProofs {
  import opened Outcomes
  import opened BigIntegers
  import opened Receipts
  import opened Eth2Types

  const EventSignature: string := "Message(string,uint256,bytes)"

  /** `String.getBytes()` of an ASCII string. */
  function AsciiBytes(s: string): Bytes
  {
    seq(|s|, i requires 0 <= i < |s| => (s[i] as int) % 256)
  }

  /** keccak-256 of the event signature: the first topic of a BTP message log. */
  function EventTopic(env: Env): Bytes
  {
    env.keccak256(AsciiBytes(EventSignature))
  }

  predicate IsMessageLog(log: Log, topic: Bytes)
  {
    |log.topics| > 0 && log.topics[0] == topic
  }

  /** The message logs among `logs`, in order. */
  function Matching(logs: seq<Log>, topic: Bytes): seq<Log>
  {
    if |logs| == 0 then []
    else (if IsMessageLog(logs[0], topic) then [logs[0]] else []) + Matching(logs[1..], topic)
  }

  /** The message payloads of `logs`, in order. */
  function Payloads(logs: seq<Log>): seq<Bytes>
  {
    seq(|logs|, k requires 0 <= k < |logs| => logs[k].message)
  }

  /** The sequence number a log claims: `new BigInteger(topics[2])`, absent
      when there is no third topic or it is empty. */
  function ClaimedSequence(log: Log): Option<int>
  {
    if |log.topics| < 3 then None else BigIntegerOf(log.topics[2])
  }

  /** The k-th message log claims number start + k + 1. */
  predicate Sequenced(msgLogs: seq<Log>, start: int)
  {
    forall k :: 0 <= k < |msgLogs| ==> ClaimedSequence(msgLogs[k]) == Some(start + k + 1)
  }

  /** Every log has a first topic (reading `topics[0]` of the others fails). */
  predicate TopicsPresent(logs: seq<Log>)
  {
    forall k :: 0 <= k < |logs| ==> |logs[k].topics| > 0
  }

  /** A log the scan can read: it has a first topic and, when it is a
      message log, a third topic holding a sequence number. */
  predicate LogReadable(log: Log, topic: Bytes)
  {
    |log.topics| > 0 && (IsMessageLog(log, topic) ==> ClaimedSequence(log).Some?)
  }

  /** Every log of `logs` is readable, so a scan of them can fail only on
      the numbering. */
  predicate Readable(logs: seq<Log>, topic: Bytes)
  {
    forall k :: 0 <= k < |logs| ==> LogReadable(logs[k], topic)
  }

  /** The condition under which scanning `logs` from counter `start`
      succeeds: gap-free, repeat-free numbering of the message logs. */
  predicate InSequence(logs: seq<Log>, topic: Bytes, start: int)
  {
    TopicsPresent(logs) && Sequenced(Matching(logs, topic), start)
  }

  lemma {:induction false} MatchingAppend(a: seq<Log>, b: seq<Log>, topic: Bytes)
    ensures Matching(a + b, topic) == Matching(a, topic) + Matching(b, topic)
  {
    if |a| == 0 {
      assert a + b == b;
    } else {
      var head := if IsMessageLog(a[0], topic) then [a[0]] else [];
      assert (a + b)[0] == a[0];
      assert (a + b)[1..] == a[1..] + b;
      assert Matching(a + b, topic) == head + Matching(a[1..] + b, topic);
      MatchingAppend(a[1..], b, topic);
      assert head + (Matching(a[1..], topic) + Matching(b, topic))
          == (head + Matching(a[1..], topic)) + Matching(b, topic);
    }
  }

  lemma PayloadsAppend(a: seq<Log>, b: seq<Log>)
    ensures Payloads(a + b) == Payloads(a) + Payloads(b)
  {
  }

  lemma SequencedAppend(a: seq<Log>, b: seq<Log>, start: int)
    ensures Sequenced(a + b, start) <==> Sequenced(a, start) && Sequenced(b, start + |a|)
  {
    if Sequenced(a, start) && Sequenced(b, start + |a|) {
      forall k | 0 <= k < |a + b|
        ensures ClaimedSequence((a + b)[k]) == Some(start + k + 1)
      {
        if k >= |a| {
          assert (a + b)[k] == b[k - |a|];
        }
      }
    }
    if Sequenced(a + b, start) {
      forall k | 0 <= k < |a|
        ensures ClaimedSequence(a[k]) == Some(start + k + 1)
      {
        assert a[k] == (a + b)[k];
      }
      forall k | 0 <= k < |b|
        ensures ClaimedSequence(b[k]) == Some(start + |a| + k + 1)
      {
        assert b[k] == (a + b)[|a| + k];
      }
    }
  }

  lemma TopicsPresentAppend(a: seq<Log>, b: seq<Log>)
    ensures TopicsPresent(a + b) <==> TopicsPresent(a) && TopicsPresent(b)
  {
    if TopicsPresent(a) && TopicsPresent(b) {
      forall k | 0 <= k < |a + b|
        ensures |(a + b)[k].topics| > 0
      {
        if k >= |a| {
          assert (a + b)[k] == b[k - |a|];
        }
      }
    }
    if TopicsPresent(a + b) {
      forall k | 0 <= k < |a|
        ensures |a[k].topics| > 0
      {
        assert a[k] == (a + b)[k];
      }
      forall k | 0 <= k < |b|
        ensures |b[k].topics| > 0
      {
        assert b[k] == (a + b)[|a| + k];
      }
    }
  }

  /** Scanning a concatenation succeeds exactly when scanning the first part
      succeeds and scanning the second part succeeds from the counter the
      first part leaves behind. */
  lemma InSequenceAppend(a: seq<Log>, b: seq<Log>, topic: Bytes, start: int)
    ensures InSequence(a + b, topic, start) <==>
      InSequence(a, topic, start) && InSequence(b, topic, start + |Matching(a, topic)|)
  {
    MatchingAppend(a, b, topic);
    SequencedAppend(Matching(a, topic), Matching(b, topic), start);
    TopicsPresentAppend(a, b);
  }

  /** No logs: nothing to scan, and the scan succeeds. */
  lemma InSequenceEmpty(topic: Bytes, start: int)
    ensures Matching([], topic) == []
    ensures InSequence([], topic, start)
  {
  }

  /** One log continues the scan when it has a first topic and, if it is a
      message log, claims the next number. */
  lemma InSequenceSingle(log: Log, topic: Bytes, start: int)
    ensures Matching([log], topic) == (if IsMessageLog(log, topic) then [log] else [])
    ensures InSequence([log], topic, start) <==>
      |log.topics| > 0 && (IsMessageLog(log, topic) ==> ClaimedSequence(log) == Some(start + 1))
  {
    assert [log][1..] == [];
  }

  /** Two consecutive accepted batches never accept the same number: the
      second continues from where the first stopped. */
  lemma NoReplayAcrossBatches(first: seq<Log>, second: seq<Log>, topic: Bytes, start: int)
    requires InSequence(first, topic, start)
    requires InSequence(second, topic, start + |Matching(first, topic)|)
    ensures forall a, b ::
      0 <= a < |Matching(first, topic)| && 0 <= b < |Matching(second, topic)| ==>
        ClaimedSequence(Matching(first, topic)[a]).value < ClaimedSequence(Matching(second, topic)[b]).value
  {
  }

  /** A message log that skips a number is rejected, even after an accepted
      one: with `lastMsgSeq` 4, logs claiming 5 and then 7 fail at the 7. */
  lemma GapRejected(a: Log, b: Log, topic: Bytes, start: int)
    requires IsMessageLog(a, topic) && IsMessageLog(b, topic)
    requires ClaimedSequence(a) == Some(start + 1)
    requires ClaimedSequence(b) != Some(start + 2)
    ensures InSequence([a], topic, start)
    ensures !InSequence([a, b], topic, start)
  {
    InSequenceSingle(a, topic, start);
    InSequenceSingle(b, topic, start + 1);
    assert [a, b] == [a] + [b];
    InSequenceAppend([a], [b], topic, start);
  }

  /** `MerklePatriciaTree.prove` of the receipt stored under a key of the
      receipts trie with root `root`, then `Receipt.fromBytes` of the value. */
  function ProveReceipt(env: Env, root: Bytes, rp: ReceiptProof): (r: Result<Receipt>)
    ensures var stored := env.mptProve(root, rp.key, rp.proofs);
      r.Ok? <==> stored.Some? && env.rlpParse(stored.value).Some? && ReceiptShaped(env.rlpParse(stored.value).value)
    ensures env.mptProve(root, rp.key, rp.proofs).None? ==> r == Err(InvalidTrieProof)
    ensures env.mptProve(root, rp.key, rp.proofs).Some? && r.Err? ==> r == Err(MalformedReceipt)
  {
    match env.mptProve(root, rp.key, rp.proofs)
    case None => Err(InvalidTrieProof)
    case Some(value) =>
      match FromBytes(env.rlpParse, value)
      case None => Err(MalformedReceipt)
      case Some(receipt) => Ok(receipt)
  }

  /** A trie that stores the encoding of a receipt proves that receipt. */
  lemma ProveEncodedReceipt(env: Env, root: Bytes, rp: ReceiptProof, bytes: Bytes, receipt: Receipt)
    requires env.mptProve(root, rp.key, rp.proofs) == Some(bytes)
    requires env.rlpParse(bytes) == Some(ReceiptItem(receipt))
    ensures ProveReceipt(env, root, rp) == Ok(receipt)
  {
    FromBytesOfEncoding(env.rlpParse, bytes, receipt);
  }

  /** The receipt prover for one receipts root. */
  function ReceiptProver(env: Env, root: Bytes): ReceiptProof -> Result<Receipt>
  {
    rp => ProveReceipt(env, root, rp)
  }

  predicate AllProven(prove: ReceiptProof -> Result<Receipt>, rps: seq<ReceiptProof>)
  {
    forall k :: 0 <= k < |rps| ==> prove(rps[k]).Ok?
  }

  function ProvenReceipts(prove: ReceiptProof -> Result<Receipt>, rps: seq<ReceiptProof>): (rs: seq<Receipt>)
    requires AllProven(prove, rps)
    ensures |rs| == |rps|
    ensures forall k :: 0 <= k < |rps| ==> prove(rps[k]) == Ok(rs[k])
  {
    seq(|rps|, k requires 0 <= k < |rps| => prove(rps[k]).value)
  }

  /** All logs of `rs`, receipt by receipt. */
  function LogsOf(rs: seq<Receipt>): seq<Log>
  {
    if |rs| == 0 then [] else rs[0].logs + LogsOf(rs[1..])
  }

  lemma {:induction false} LogsOfAppend(a: seq<Receipt>, b: seq<Receipt>)
    ensures LogsOf(a + b) == LogsOf(a) + LogsOf(b)
  {
    if |a| == 0 {
      assert a + b == b;
    } else {
      assert (a + b)[1..] == a[1..] + b;
      LogsOfAppend(a[1..], b);
    }
  }

  /** The logs a message proof yields: those of its receipts, in proof order. */
  function MessageLogs(env: Env, mp: MessageProof): seq<Log>
  {
    var prove := ReceiptProver(env, mp.receiptRootProof.leaf);
    if AllProven(prove, mp.receiptProofs) then LogsOf(ProvenReceipts(prove, mp.receiptProofs)) else []
  }

  /** When `processMessageProof` accepts: a block proof precedes it, the
      receipts root is proven under that block's state root, every receipt
      is proven and decodes, and the message logs continue `start`. */
  predicate MessageProofAccepted(env: Env, mp: MessageProof, bp: Option<BlockProof>, start: int)
  {
    && bp.Some?
    && env.sszVerify(bp.value.header.stateRoot, mp.receiptRootProof)
    && AllProven(ReceiptProver(env, mp.receiptRootProof.leaf), mp.receiptProofs)
    && InSequence(MessageLogs(env, mp), EventTopic(env), start)
  }

  /** Messages extracted by a successful call and the state it leaves. */
  datatype Extraction = Extraction(messages: seq<Bytes>, props: Properties)

  /** Result of scanning the logs of one receipt: the counter after the
      last message log and the payloads of the message logs. */
  datatype Scan = Scan(counter: int, messages: seq<Bytes>)

  /** What scanning one more log adds: the prefix through log `j` scans
      exactly when the prefix before it does and the log itself continues
      the counter; a failing prefix fails the whole list. */
  lemma ScanLogStep(logs: seq<Log>, j: nat, topic: Bytes, counter: int)
    requires j < |logs|
    ensures InSequence(logs[..j + 1], topic, counter) <==>
      && InSequence(logs[..j], topic, counter)
      && |logs[j].topics| > 0
      && (IsMessageLog(logs[j], topic) ==>
            ClaimedSequence(logs[j]) == Some(counter + |Matching(logs[..j], topic)| + 1))
    ensures Payloads(Matching(logs[..j + 1], topic)) ==
      Payloads(Matching(logs[..j], topic)) + (if IsMessageLog(logs[j], topic) then [logs[j].message] else [])
    ensures !InSequence(logs[..j + 1], topic, counter) ==> !InSequence(logs, topic, counter)
  {
    var log := logs[j];
    assert logs[..j + 1] == logs[..j] + [log];
    InSequenceAppend(logs[..j], [log], topic, counter);
    MatchingAppend(logs[..j], [log], topic);
    InSequenceSingle(log, topic, counter + |Matching(logs[..j], topic)|);
    PayloadsAppend(Matching(logs[..j], topic), Matching([log], topic));
    assert logs == logs[..j + 1] + logs[j + 1..];
    InSequenceAppend(logs[..j + 1], logs[j + 1..], topic, counter);
  }

  /** The inner loop of `processMessageProof` over the logs of one receipt:
      skip logs of other events, and require each message log to claim the
      next number after `counter`. */
  method ScanLogs(logs: seq<Log>, topic: Bytes, counter: int) returns (res: Result<Scan>)
    ensures res.Ok? <==> InSequence(logs, topic, counter)
    ensures res.Ok? ==> res.value.messages == Payloads(Matching(logs, topic))
    ensures res.Ok? ==> res.value.counter == counter + |res.value.messages|
    ensures res.Err? ==> res.error in {TopicMissing(0), TopicMissing(2), MalformedSequence, InvalidMessageSequence}
    ensures res.Err? && Readable(logs, topic) ==> res.error == InvalidMessageSequence
  {
    var current := counter;
    var msgs: seq<Bytes> := [];
    var j := 0;
    while j < |logs|
      invariant 0 <= j <= |logs|
      invariant InSequence(logs[..j], topic, counter)
      invariant msgs == Payloads(Matching(logs[..j], topic))
      invariant current == counter + |msgs|
    {
      var log := logs[j];
      ScanLogStep(logs, j, topic, counter);
      assert Readable(logs, topic) ==> LogReadable(log, topic);
      if |log.topics| == 0 {
        return Err(TopicMissing(0));
      }
      if log.topics[0] == topic {
        if |log.topics| < 3 {
          return Err(TopicMissing(2));
        }
        var claimed := BigIntegerOf(log.topics[2]);
        if claimed.None? {
          return Err(MalformedSequence);
        }
        current := current + 1;
        if current != claimed.value {
          return Err(InvalidMessageSequence);
        }
        msgs := msgs + [log.message];
      }
      j := j + 1;
    }
    assert logs[..j] == logs;
    return Ok(Scan(current, msgs));
  }

  lemma LogsOfSnoc(rs: seq<Receipt>, receipt: Receipt)
    ensures LogsOf(rs + [receipt]) == LogsOf(rs) + receipt.logs
  {
    LogsOfAppend(rs, [receipt]);
    assert [receipt][1..] == [];
  }

  /** A receipt whose logs scan correctly from the counter the earlier
      receipts left extends the accepted logs and the extracted payloads. */
  lemma ReceiptAccepted(rs: seq<Receipt>, receipt: Receipt, topic: Bytes, start: int, scanned: seq<Bytes>)
    requires InSequence(LogsOf(rs), topic, start)
    requires InSequence(receipt.logs, topic, start + |Matching(LogsOf(rs), topic)|)
    requires scanned == Payloads(Matching(receipt.logs, topic))
    ensures InSequence(LogsOf(rs + [receipt]), topic, start)
    ensures Payloads(Matching(LogsOf(rs), topic)) + scanned == Payloads(Matching(LogsOf(rs + [receipt]), topic))
  {
    LogsOfSnoc(rs, receipt);
    InSequenceAppend(LogsOf(rs), receipt.logs, topic, start);
    MatchingAppend(LogsOf(rs), receipt.logs, topic);
    PayloadsAppend(Matching(LogsOf(rs), topic), Matching(receipt.logs, topic));
  }

  /** One step of the outer loop of `processMessageProof`: scans the logs
      of the next receipt from the counter the receipts `rs` before it left. */
  method ScanReceipt(ghost rs: seq<Receipt>, receipt: Receipt, topic: Bytes, start: int, scanned: Scan)
    returns (res: Result<Scan>)
    requires InSequence(LogsOf(rs), topic, start)
    requires scanned.messages == Payloads(Matching(LogsOf(rs), topic))
    requires scanned.counter == start + |scanned.messages|
    ensures res.Ok? <==> InSequence(LogsOf(rs + [receipt]), topic, start)
    ensures res.Ok? ==> res.value.messages == Payloads(Matching(LogsOf(rs + [receipt]), topic))
    ensures res.Ok? ==> res.value.counter == start + |res.value.messages|
    ensures res.Err? && Readable(receipt.logs, topic) ==> res.error == InvalidMessageSequence
  {
    LogsOfSnoc(rs, receipt);
    InSequenceAppend(LogsOf(rs), receipt.logs, topic, start);
    var scan := ScanLogs(receipt.logs, topic, scanned.counter);
    if scan.Err? {
      return Err(scan.error);
    }
    ReceiptAccepted(rs, receipt, topic, start, scan.value.messages);
    return Ok(Scan(scan.value.counter, scanned.messages + scan.value.messages));
  }

  /** A failing prefix of the proven receipts makes the whole list fail. */
  lemma PrefixRejects(all: seq<Receipt>, i: nat, topic: Bytes, start: int)
    requires i <= |all|
    requires !InSequence(LogsOf(all[..i]), topic, start)
    ensures !InSequence(LogsOf(all), topic, start)
  {
    assert all == all[..i] + all[i..];
    LogsOfAppend(all[..i], all[i..]);
    InSequenceAppend(LogsOf(all[..i]), LogsOf(all[i..]), topic, start);
  }

  /** The logs of the i-th receipt sit between those of the receipts
      before and after it. */
  lemma LogsOfSplit(all: seq<Receipt>, i: nat)
    requires i < |all|
    ensures LogsOf(all) == LogsOf(all[..i]) + all[i].logs + LogsOf(all[i + 1..])
  {
    assert all == all[..i] + all[i..];
    LogsOfAppend(all[..i], all[i..]);
    assert all[i..][1..] == all[i + 1..];
  }

  /** The middle part of a readable list of logs is readable. */
  lemma ReadableMiddle(a: seq<Log>, m: seq<Log>, b: seq<Log>, topic: Bytes)
    ensures Readable(a + m + b, topic) ==> Readable(m, topic)
  {
    if Readable(a + m + b, topic) {
      forall k | 0 <= k < |m|
        ensures LogReadable(m[k], topic)
      {
        assert m[k] == (a + m + b)[|a| + k];
      }
    }
  }

  /** Every receipt of a readable list has readable logs. */
  lemma ReadableReceipt(all: seq<Receipt>, i: nat, topic: Bytes)
    requires i < |all|
    ensures Readable(LogsOf(all), topic) ==> Readable(all[i].logs, topic)
  {
    LogsOfSplit(all, i);
    ReadableMiddle(LogsOf(all[..i]), all[i].logs, LogsOf(all[i + 1..]), topic);
  }

  /** The outer loop of `processMessageProof`: proves and decodes each
      receipt in order and scans its logs from the counter the previous
      receipts left. */
  method ScanReceipts(prove: ReceiptProof -> Result<Receipt>, rps: seq<ReceiptProof>, topic: Bytes, start: int)
    returns (res: Result<Scan>)
    ensures res.Ok? <==>
      AllProven(prove, rps) && InSequence(LogsOf(ProvenReceipts(prove, rps)), topic, start)
    ensures res.Ok? ==>
      res.value.messages == Payloads(Matching(LogsOf(ProvenReceipts(prove, rps)), topic))
    ensures res.Ok? ==> res.value.counter == start + |res.value.messages|
    ensures res.Err? && AllProven(prove, rps) && Readable(LogsOf(ProvenReceipts(prove, rps)), topic) ==>
      res.error == InvalidMessageSequence
  {
    var scanned := Scan(start, []);
    ghost var rs: seq<Receipt> := [];
    var i := 0;
    while i < |rps|
      invariant 0 <= i <= |rps| && |rs| == i
      invariant forall k :: 0 <= k < i ==> prove(rps[k]) == Ok(rs[k])
      invariant InSequence(LogsOf(rs), topic, start)
      invariant scanned.messages == Payloads(Matching(LogsOf(rs), topic))
      invariant scanned.counter == start + |scanned.messages|
    {
      var proven := prove(rps[i]);
      if proven.Err? {
        return Err(proven.error);
      }
      var step := ScanReceipt(rs, proven.value, topic, start, scanned);
      if step.Err? {
        if AllProven(prove, rps) {
          ghost var all := ProvenReceipts(prove, rps);
          assert all[..i + 1] == rs + [proven.value];
          PrefixRejects(all, i + 1, topic, start);
          ReadableReceipt(all, i, topic);
        }
        return Err(step.error);
      }
      scanned := step.value;
      rs := rs + [proven.value];
      i := i + 1;
    }
    assert ProvenReceipts(prove, rps) == rs;
    return Ok(scanned);
  }

  /** `processMessageProof`. */
  method ProcessMessageProof(env: Env, mp: MessageProof, bp: Option<BlockProof>, p: Properties)
    returns (res: Result<Extraction>)
    ensures res.Ok? <==> MessageProofAccepted(env, mp, bp, p.lastMsgSeq)
    ensures bp.None? ==> res == Err(MissingBlockProof)
    ensures res.Ok? ==> res.value.messages == Payloads(Matching(MessageLogs(env, mp), EventTopic(env)))
    ensures res.Ok? ==>
      res.value.props ==
        if |res.value.messages| == 0 then p
        else p.(lastMsgSeq := p.lastMsgSeq + |res.value.messages|, lastMsgSlot := bp.value.header.slot)
    ensures res.Err? && bp.Some? && env.sszVerify(bp.value.header.stateRoot, mp.receiptRootProof)
            && AllProven(ReceiptProver(env, mp.receiptRootProof.leaf), mp.receiptProofs)
            && Readable(MessageLogs(env, mp), EventTopic(env)) ==>
      res.error == InvalidMessageSequence
  {
    if bp.None? {
      return Err(MissingBlockProof);
    }
    var header := bp.value.header;
    if !env.sszVerify(header.stateRoot, mp.receiptRootProof) {
      return Err(InvalidSszProof);
    }
    var scan := ScanReceipts(ReceiptProver(env, mp.receiptRootProof.leaf), mp.receiptProofs, EventTopic(env), p.lastMsgSeq);
    if scan.Err? {
      return Err(scan.error);
    }
    var msgs := scan.value.messages;
    var props := if |msgs| == 0 then p else p.(lastMsgSeq := scan.value.counter, lastMsgSlot := header.slot);
    return Ok(Extraction(msgs, props));
  }
}
