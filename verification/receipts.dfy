/** Transaction receipts and their logs, as read by the verifier.

    A receipt arrives as bytes in the Recursive Length Prefix encoding
    (Appendix B of the Ethereum Yellow Paper).  The byte-level RLP parser is a
    host library and is left abstract: this module starts from the item tree
    it produces and models how `Receipt.readObject` walks that tree.
 */
module Receipts {
  import opened Outcomes
  import opened BigIntegers

  /** One RLP item: a byte string or a list of items. */
  datatype RlpItem = RlpString(bytes: Bytes) | RlpList(items: seq<RlpItem>)

  /** An event log: emitting address, indexed topics, and the log's data
      item, stored as read; `message` is what `Log.getMessage` is taken to
      return. */
  datatype Log = Log(address: Bytes, topics: seq<Bytes>, message: Bytes)

  /** A receipt; `logs` keeps the order of the encoded log list. */
  datatype Receipt = Receipt(
    postStatusOrState: Bytes,
    cumulativeGasUsed: int,
    bloom: Bytes,
    logs: seq<Log>)

  /** `readByteArray`: the item must be a string. */
  function ReadByteArray(item: RlpItem): Option<Bytes>
  {
    if item.RlpString? then Some(item.bytes) else None
  }

  /** `readBigInteger`: a two's-complement string, the empty string being
      zero. */
  function ReadBigInteger(item: RlpItem): Option<int>
  {
    if item.RlpList? then None
    else if |item.bytes| == 0 then Some(0)
    else Some(SignedValue(item.bytes))
  }

  /** `while (r.hasNext()) list.add(read())` over the items of a list: every
      item must be readable, and the results keep the items' order. */
  function ReadEach<T>(items: seq<RlpItem>, read: RlpItem -> Option<T>): (r: Option<seq<T>>)
    ensures r.Some? <==> forall k :: 0 <= k < |items| ==> read(items[k]).Some?
    ensures r.Some? ==> |r.value| == |items|
    ensures r.Some? ==> forall k :: 0 <= k < |items| ==> Some(r.value[k]) == read(items[k])
  {
    if |items| == 0 then Some([])
    else
      match read(items[0])
      case None => None
      case Some(first) =>
        match ReadEach(items[1..], read)
        case None => None
        case Some(rest) => Some([first] + rest)
  }

  /** A log is the list [address, [topic, ...], data]. */
  function ReadLog(item: RlpItem): Option<Log>
  {
    if item.RlpList? && |item.items| >= 3
       && item.items[0].RlpString? && item.items[1].RlpList? && item.items[2].RlpString?
    then
      match ReadEach(item.items[1].items, ReadByteArray)
      case None => None
      case Some(topics) => Some(Log(item.items[0].bytes, topics, item.items[2].bytes))
    else None
  }

  /** The item layout `Receipt.readObject` accepts: one list holding a string,
      an integer string, a string and a list of logs. */
  predicate ReceiptShaped(item: RlpItem)
  {
    && item.RlpList?
    && |item.items| >= 4
    && item.items[0].RlpString?
    && item.items[1].RlpString?
    && item.items[2].RlpString?
    && item.items[3].RlpList?
    && forall k :: 0 <= k < |item.items[3].items| ==> ReadLog(item.items[3].items[k]).Some?
  }

  /** `Receipt.readObject`. */
  function ReadReceipt(item: RlpItem): (r: Option<Receipt>)
    ensures r.Some? <==> ReceiptShaped(item)
    ensures r.Some? ==>
      && r.value.postStatusOrState == item.items[0].bytes
      && ReadBigInteger(item.items[1]) == Some(r.value.cumulativeGasUsed)
      && r.value.bloom == item.items[2].bytes
    ensures r.Some? ==>
      && |r.value.logs| == |item.items[3].items|
      && forall k :: 0 <= k < |r.value.logs| ==> ReadLog(item.items[3].items[k]) == Some(r.value.logs[k])
  {
    if item.RlpList? && |item.items| >= 4
       && item.items[0].RlpString? && item.items[1].RlpString?
       && item.items[2].RlpString? && item.items[3].RlpList?
    then
      var gas := ReadBigInteger(item.items[1]).value;
      match ReadEach(item.items[3].items, ReadLog)
      case None => None
      case Some(logs) => Some(Receipt(item.items[0].bytes, gas, item.items[2].bytes, logs))
    else None
  }

  /** `Receipt.fromBytes`: the RLP reading of the bytes, then `readObject`. */
  function FromBytes(parse: Bytes -> Option<RlpItem>, bytes: Bytes): (r: Option<Receipt>)
    ensures r.Some? <==> parse(bytes).Some? && ReceiptShaped(parse(bytes).value)
    ensures r.Some? ==>
      var item := parse(bytes).value;
      && r.value.postStatusOrState == item.items[0].bytes
      && ReadBigInteger(item.items[1]) == Some(r.value.cumulativeGasUsed)
      && r.value.bloom == item.items[2].bytes
      && |r.value.logs| == |item.items[3].items|
      && forall k :: 0 <= k < |r.value.logs| ==> ReadLog(item.items[3].items[k]) == Some(r.value.logs[k])
  {
    match parse(bytes)
    case None => None
    case Some(item) => ReadReceipt(item)
  }

  /** The item tree of a log. */
  function LogItem(l: Log): RlpItem
  {
    RlpList([
      RlpString(l.address),
      RlpList(seq(|l.topics|, k requires 0 <= k < |l.topics| => RlpString(l.topics[k]))),
      RlpString(l.message)])
  }

  /** The item tree of a receipt, the gas written in two's complement. */
  function ReceiptItem(r: Receipt): RlpItem
  {
    var gas := r.cumulativeGasUsed;
    RlpList([
      RlpString(r.postStatusOrState),
      RlpString(TwosComplement(gas, EncodingWidth(gas))),
      RlpString(r.bloom),
      RlpList(seq(|r.logs|, k requires 0 <= k < |r.logs| => LogItem(r.logs[k])))])
  }

  lemma LogRoundTrip(l: Log)
    ensures ReadLog(LogItem(l)) == Some(l)
  {
    var item := LogItem(l);
    var topics := ReadEach(item.items[1].items, ReadByteArray);
    assert topics.Some?;
    assert topics.value == l.topics;
  }

  /** Reading the item tree of a receipt gives back the same receipt. */
  lemma ReceiptRoundTrip(r: Receipt)
    ensures ReadReceipt(ReceiptItem(r)) == Some(r)
  {
    var item := ReceiptItem(r);
    var gas := r.cumulativeGasUsed;
    SignedRoundTrip(gas, EncodingWidth(gas));
    forall k | 0 <= k < |r.logs|
      ensures ReadLog(item.items[3].items[k]) == Some(r.logs[k])
    {
      LogRoundTrip(r.logs[k]);
    }
    assert ReceiptShaped(item);
    assert ReadReceipt(item).value.logs == r.logs;
  }

  /** Any bytes that the RLP reader turns into the item tree of a receipt
      decode to that receipt. */
  lemma FromBytesOfEncoding(parse: Bytes -> Option<RlpItem>, bytes: Bytes, r: Receipt)
    requires parse(bytes) == Some(ReceiptItem(r))
    ensures FromBytes(parse, bytes) == Some(r)
  {
    ReceiptRoundTrip(r);
  }
}
