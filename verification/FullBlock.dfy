/** Full blocks as a peer delivers them, and their trimmed form. */
module FullBlock {
  import opened Text

  const CONFIG := 1
  const CONFIG_UPDATE := 2
  const ENDORSER_TRANSACTION := 3

  const TRANSACTIONS_FILTER := 2

  /** One action of an endorser transaction; `accepted` when it decodes and passes the checks on it. */
  datatype Action = Action(accepted: bool, event: Option<nat>)

  /** What the payload data decodes to under its header type. */
  datatype Body =
    | Undecodable
    | ConfigBody(config: nat, lastUpdate: Option<nat>)
    | ConfigUpdateBody(update: nat)
    | EndorserBody(actions: seq<Action>)

  /** One entry of `block.Data.Data`: an envelope whose payload and headers decode, or one that does not. */
  datatype TxData =
    | BadEnvelope
    | TxData(channelId: string, txId: string, headerType: int, body: Body)

  datatype Block = Block(number: nat, metadata: seq<seq<nat>>, data: seq<TxData>)

  datatype Transaction = Transaction(
    txType: int, txId: string, config: Option<nat>, configUpdate: Option<nat>, events: seq<Option<nat>>)

  datatype TrimmedTransaction = TrimmedTransaction(
    txid: string, txType: int, validationCode: nat, chaincodeEvents: seq<Option<nat>>)

  datatype TrimmedBlock = TrimmedBlock(channelId: string, number: nat, transactions: seq<TrimmedTransaction>)

  /** The transactions `ParseTransaction` takes without panicking. */
  predicate Parses(d: TxData) {
    d.TxData?
    && match d.headerType
       case 1 => d.body.ConfigBody?
       case 2 => d.body.ConfigUpdateBody?
       case 3 => d.body.EndorserBody? && |d.body.actions| == 1 && d.body.actions[0].accepted
       case _ => false
  }

  /** The parsed form of such a transaction. */
  function Parsed(d: TxData): Transaction
    requires Parses(d)
  {
    match d.body
    case ConfigBody(config, lastUpdate) => Transaction(d.headerType, d.txId, Some(config), lastUpdate, [])
    case ConfigUpdateBody(update) => Transaction(d.headerType, d.txId, None, Some(update), [])
    case EndorserBody(actions) => Transaction(d.headerType, d.txId, None, None, [actions[0].event])
  }

  /** The three kinds of transactions, by the numbers of their header types, and what is taken from each. */
  lemma ParsesExactly(channelId: string, txId: string, headerType: int, body: Body)
    ensures var d := TxData(channelId, txId, headerType, body);
            && (Parses(d) <==>
                  || (headerType == 1 && body.ConfigBody?)
                  || (headerType == 2 && body.ConfigUpdateBody?)
                  || (headerType == 3 && exists event :: body == EndorserBody([Action(true, event)])))
            && (forall config, last | headerType == 1 && body == ConfigBody(config, last) ::
                  Parsed(d) == Transaction(1, txId, Some(config), last, []))
            && (forall update | headerType == 2 && body == ConfigUpdateBody(update) ::
                  Parsed(d) == Transaction(2, txId, None, Some(update), []))
            && (forall event | headerType == 3 && body == EndorserBody([Action(true, event)]) ::
                  Parsed(d) == Transaction(3, txId, None, None, [event]))
    ensures !Parses(BadEnvelope)
  {
    var d := TxData(channelId, txId, headerType, body);
    if Parses(d) && headerType == 3 {
      assert body.actions == [body.actions[0]] && body.actions[0] == Action(true, body.actions[0].event);
    }
  }

  /** `None` is a panic. */
  method ParseTransaction(d: TxData) returns (t: Option<Transaction>)
    ensures t == if Parses(d) then Some(Parsed(d)) else None
  {
    if d.BadEnvelope? {
      return None;
    }
    var r := Transaction(d.headerType, d.txId, None, None, []);
    if d.headerType == CONFIG {
      if !d.body.ConfigBody? {
        return None;
      }
      r := r.(config := Some(d.body.config));
      if d.body.lastUpdate.Some? {
        r := r.(configUpdate := Some(d.body.lastUpdate.value));
      }
    } else if d.headerType == CONFIG_UPDATE {
      if !d.body.ConfigUpdateBody? {
        return None;
      }
      r := r.(configUpdate := Some(d.body.update));
    } else if d.headerType == ENDORSER_TRANSACTION {
      if !d.body.EndorserBody? || |d.body.actions| != 1 {
        return None;
      }
      for i := 0 to |d.body.actions|
        invariant r == Transaction(d.headerType, d.txId, None, None,
                                   if i == 0 then [] else [d.body.actions[0].event])
        invariant i == 1 ==> d.body.actions[0].accepted
      {
        if !d.body.actions[i].accepted {
          return None;
        }
        r := r.(events := r.events + [d.body.actions[i].event]);
      }
    } else {
      return None;
    }
    return Some(r);
  }

  /** The validation code bytes of a block. */
  function Codes(b: Block): seq<nat> {
    if TRANSACTIONS_FILTER < |b.metadata| then b.metadata[TRANSACTIONS_FILTER] else []
  }

  /** Blocks `FromFullBlock` takes: a code for every transaction, and every transaction parses. */
  predicate WellFormed(b: Block) {
    && TRANSACTIONS_FILTER < |b.metadata|
    && |b.data| <= |Codes(b)|
    && forall i | 0 <= i < |b.data| :: Parses(b.data[i])
  }

  /** Entry `i` of the trimmed block: transaction `i` with code `i`. */
  predicate TrimmedAt(b: Block, i: nat, t: TrimmedTransaction)
    requires WellFormed(b) && i < |b.data|
  {
    && t.txid == b.data[i].txId
    && t.txType == b.data[i].headerType
    && t.validationCode == Codes(b)[i]
    && t.chaincodeEvents == Parsed(b.data[i]).events
  }

  /** Trimming keeps order, number and channel, and aligns every code with its transaction. */
  predicate IsTrimmed(b: Block, t: TrimmedBlock)
    requires WellFormed(b)
  {
    && t.number == b.number
    && t.channelId == (if b.data == [] then "" else b.data[|b.data| - 1].channelId)
    && |t.transactions| == |b.data|
    && forall i | 0 <= i < |b.data| :: TrimmedAt(b, i, t.transactions[i])
  }

  function TrimmedEntry(d: TxData, code: nat): TrimmedTransaction
    requires Parses(d)
  {
    TrimmedTransaction(d.txId, d.headerType, code, Parsed(d).events)
  }

  /** `None` is a panic. */
  method FromFullBlock(block: Block) returns (r: Option<TrimmedBlock>)
    ensures r.Some? <==> WellFormed(block)
    ensures r.Some? ==> IsTrimmed(block, r.value)
  {
    if TRANSACTIONS_FILTER >= |block.metadata| {
      return None;
    }
    var txStatusCodes := block.metadata[TRANSACTIONS_FILTER];
    var channelId := "";
    var transactions: seq<TrimmedTransaction> := [];
    var index := 0;
    while index < |block.data|
      invariant 0 <= index <= |block.data| && index <= |txStatusCodes|
      invariant forall i | 0 <= i < index :: Parses(block.data[i])
      invariant channelId == if index == 0 then "" else block.data[index - 1].channelId
      invariant |transactions| == index
      invariant forall i | 0 <= i < index :: transactions[i] == TrimmedEntry(block.data[i], txStatusCodes[i])
    {
      var data := block.data[index];
      if data.BadEnvelope? {
        return None;
      }
      channelId := data.channelId;
      if index >= |txStatusCodes| {
        return None;
      }
      var parsed := ParseTransaction(data);
      if parsed.None? {
        return None;
      }
      var tx := TrimmedTransaction("", 0, txStatusCodes[index], []);
      tx := Fill(tx, parsed.value);
      assert tx == TrimmedEntry(data, txStatusCodes[index]);
      transactions := transactions + [tx];
      index := index + 1;
    }
    return Some(TrimmedBlock(channelId, block.number, transactions));
  }

  /** `Fill`: id, type and events of a parsed transaction. */
  function Fill(t: TrimmedTransaction, transaction: Transaction): TrimmedTransaction {
    t.(txid := transaction.txId,
       txType := transaction.txType,
       chaincodeEvents := t.chaincodeEvents + transaction.events)
  }

  /** There is one trimmed form. */
  function TrimmedForm(b: Block): (t: TrimmedBlock)
    requires WellFormed(b)
    ensures IsTrimmed(b, t)
  {
    TrimmedBlock(
      if b.data == [] then "" else b.data[|b.data| - 1].channelId,
      b.number,
      seq(|b.data|, i requires 0 <= i < |b.data| =>
        TrimmedTransaction(b.data[i].txId, b.data[i].headerType, Codes(b)[i], Parsed(b.data[i]).events)))
  }

  /** Transaction `i` of a block with metadata [signatures, last config, codes, ...] gets `codes[i]`. */
  lemma CodesByPosition(
      number: nat, signatures: seq<nat>, lastConfig: seq<nat>, codes: seq<nat>, more: seq<seq<nat>>, data: seq<TxData>,
      i: nat)
    requires i < |data| <= |codes| && forall j | 0 <= j < |data| :: Parses(data[j])
    ensures var b := Block(number, [signatures, lastConfig, codes] + more, data);
            && WellFormed(b)
            && TrimmedForm(b).number == number && |TrimmedForm(b).transactions| == |data|
            && TrimmedForm(b).channelId == data[|data| - 1].channelId
            && TrimmedForm(b).transactions[i]
               == TrimmedTransaction(data[i].txId, data[i].headerType, codes[i], Parsed(data[i]).events)
  {
    var b := Block(number, [signatures, lastConfig, codes] + more, data);
    assert b.metadata[2] == codes;
    assert WellFormed(b);
    assert TrimmedAt(b, i, TrimmedForm(b).transactions[i]);
  }

  /** Without codes, with too few of them, or with a transaction that does not parse there is no such form. */
  lemma WellFormedExactly(b: Block)
    ensures WellFormed(b) <==>
              |b.metadata| > 2 && |b.metadata[2]| >= |b.data| && forall i | 0 <= i < |b.data| :: Parses(b.data[i])
  {
  }

  lemma TrimmedUnique(b: Block, t: TrimmedBlock)
    requires WellFormed(b) && IsTrimmed(b, t)
    ensures t == TrimmedForm(b)
  {
    forall i | 0 <= i < |b.data| ensures t.transactions[i] == TrimmedForm(b).transactions[i] {
      assert TrimmedAt(b, i, t.transactions[i]) && TrimmedAt(b, i, TrimmedForm(b).transactions[i]);
    }
  }
}
