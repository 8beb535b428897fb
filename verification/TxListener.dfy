/** Waiting for one transaction, on full or on filtered blocks, with the same answer. */
module TxListener {
  import opened Text
  import opened FullBlock
  import opened Delivery

  /** The code of the first endorser transaction with this id. */
  function FilteredCode(txs: seq<FilteredTransaction>, txid: string): Option<nat> {
    if txs == [] then None
    else if txs[0].txType == ENDORSER_TRANSACTION && txs[0].txid == txid then Some(txs[0].validationCode)
    else FilteredCode(txs[1..], txid)
  }

  function TrimmedCode(txs: seq<TrimmedTransaction>, txid: string): Option<nat> {
    if txs == [] then None
    else if txs[0].txType == ENDORSER_TRANSACTION && txs[0].txid == txid then Some(txs[0].validationCode)
    else TrimmedCode(txs[1..], txid)
  }

  function Answer(code: Option<nat>): Verdict {
    match code
    case Some(c) => Stop(CodeName(c))
    case None => Go(Nil)
  }

  /** The predicate `WaitForTx` installs. */
  function WaitFcn(txid: string): ContinueFcn {
    (current: Delivered, history: seq<Delivered>) =>
      if current.filtered.Some? then Answer(FilteredCode(current.filtered.value.transactions, txid))
      else if current.block.Some? then
        if WellFormed(current.block.value) then Answer(TrimmedCode(TrimmedForm(current.block.value).transactions, txid))
        else Panic
      else Go(Nil)
  }

  /** The same predicate as it runs: it scans the transactions of whichever block is there. */
  method ScanForTx(txid: string, current: Delivered) returns (v: Verdict)
    ensures v == WaitFcn(txid)(current, [])
    ensures forall history :: v == WaitFcn(txid)(current, history)
  {
    if current.filtered.Some? {
      var txs := current.filtered.value.transactions;
      for i := 0 to |txs|
        invariant FilteredCode(txs, txid) == FilteredCode(txs[i..], txid)
      {
        if txs[i].txType == ENDORSER_TRANSACTION && txid == txs[i].txid {
          return Stop(CodeName(txs[i].validationCode));
        }
      }
    } else if current.block.Some? {
      var trimmed := FromFullBlock(current.block.value);
      if trimmed.None? {
        return Panic;
      }
      TrimmedUnique(current.block.value, trimmed.value);
      var txs := trimmed.value.transactions;
      for i := 0 to |txs|
        invariant TrimmedCode(txs, txid) == TrimmedCode(txs[i..], txid)
      {
        if txs[i].txType == ENDORSER_TRANSACTION && txid == txs[i].txid {
          return Stop(CodeName(txs[i].validationCode));
        }
      }
    }
    return Go(Nil);
  }

  /** The chain in force after `WaitForTx`. */
  function WaitChain(txid: string): seq<ContinueFcn> { [DefaultFcn, WaitFcn(txid)] }

  class TransactionListener {
    const eventer: Eventer

    constructor (eventer: Eventer)
      ensures this.eventer == eventer
    {
      this.eventer := eventer;
    }

    method WaitForTx(txid: string)
      modifies eventer
      ensures eventer.continueFcns == Some(WaitChain(txid))
    {
      eventer.ContinueBuilder([WaitFcn(txid)]);
      assert [DefaultFcn] + [WaitFcn(txid)] == WaitChain(txid);
    }
  }

  // ----- Full and filtered listening agree

  /** Blocks a peer can filter: every transaction has a code, and its headers decode. */
  predicate Filterable(b: Block) {
    && TRANSACTIONS_FILTER < |b.metadata|
    && |b.data| <= |Codes(b)|
    && forall i | 0 <= i < |b.data| :: b.data[i].TxData?
  }

  /** The filtered block a peer sends for a block: id, type and code of each transaction. */
  function Filter(b: Block): FilteredBlock
    requires Filterable(b)
  {
    FilteredBlock(
      if b.data == [] then "" else b.data[|b.data| - 1].channelId,
      b.number,
      seq(|b.data|, i requires 0 <= i < |b.data| =>
        FilteredTransaction(b.data[i].txId, b.data[i].headerType, Codes(b)[i])))
  }

  predicate CarriesBlock(r: Received) { r.Message? && (r.response.BlockResponse? || r.response.PrivateResponse?) }

  /** `FromFullBlock` does not panic on what is received. */
  predicate BlockParses(r: Received) { CarriesBlock(r) ==> WellFormed(r.response.block) }

  predicate BlocksParse(stream: seq<Received>, n: nat)
    requires n <= |stream|
  {
    forall k | 0 <= k < n :: BlockParses(stream[k])
  }

  predicate CanFilter(stream: seq<Received>) {
    forall k | 0 <= k < |stream| :: CarriesBlock(stream[k]) ==> Filterable(stream[k].response.block)
  }

  function FilterReceived(r: Received): Received
    requires CarriesBlock(r) ==> Filterable(r.response.block)
  {
    if CarriesBlock(r) then Message(FilteredResponse(Filter(r.response.block))) else r
  }

  /** The stream of the same channel as the filtered service delivers it. */
  function FilterStream(stream: seq<Received>): seq<Received>
    requires CanFilter(stream)
  {
    seq(|stream|, k requires 0 <= k < |stream| => FilterReceived(stream[k]))
  }

  /** What the filtered service delivers in the place of each response. */
  lemma FilteredExactly(stream: seq<Received>, k: nat)
    requires CanFilter(stream) && k < |stream|
    ensures |FilterStream(stream)| == |stream|
    ensures !CarriesBlock(stream[k]) ==> FilterStream(stream)[k] == stream[k]
    ensures CarriesBlock(stream[k]) ==>
              var b := stream[k].response.block; var other := FilterStream(stream)[k];
              && other.Message? && other.response.FilteredResponse?
              && other.response.filtered.number == b.number
              && |other.response.filtered.transactions| == |b.data|
              && (b.data != [] ==> other.response.filtered.channelId == b.data[|b.data| - 1].channelId)
              && (b.data == [] ==> other.response.filtered.channelId == "")
              && forall i | 0 <= i < |b.data| ::
                   other.response.filtered.transactions[i]
                   == FilteredTransaction(b.data[i].txId, b.data[i].headerType, b.metadata[2][i])
  {
  }

  /** Same kind of end, same receipt, after the same number of responses. */
  predicate SameResult(a: Outcome, b: Outcome) {
    match a
    case Returned(receipt, responses) => b.Returned? && b.receipt == receipt && |b.responses| == |responses|
    case Panicked => b.Panicked?
    case Waiting(responses) => b.Waiting? && |b.responses| == |responses|
  }

  lemma {:induction false} CodesAgree(ts: seq<TrimmedTransaction>, fs: seq<FilteredTransaction>, txid: string)
    requires |ts| == |fs|
    requires forall i | 0 <= i < |ts| ::
               fs[i] == FilteredTransaction(ts[i].txid, ts[i].txType, ts[i].validationCode)
    ensures TrimmedCode(ts, txid) == FilteredCode(fs, txid)
  {
    if ts != [] {
      CodesAgree(ts[1..], fs[1..], txid);
    }
  }

  lemma ChainOfTwo(txid: string, current: Delivered, history: seq<Delivered>)
    ensures Chain(WaitChain(txid), current, history)
            == if DefaultFcn(current, history).Go? then WaitFcn(txid)(current, history)
               else DefaultFcn(current, history)
  {
    var rest := [WaitFcn(txid)];
    assert WaitChain(txid)[1..] == rest;
    assert Chain(rest, current, history) == WaitFcn(txid)(current, history) by {
      assert rest[1..] == [];
    }
  }

  /** A full block is searched like its filtered form. */
  lemma BlockCode(b: Block, txid: string)
    requires WellFormed(b)
    ensures TrimmedCode(TrimmedForm(b).transactions, txid) == FilteredCode(Filter(b).transactions, txid)
  {
    forall i | 0 <= i < |b.data|
      ensures var t := TrimmedForm(b).transactions[i];
              Filter(b).transactions[i] == FilteredTransaction(t.txid, t.txType, t.validationCode)
    {
      assert TrimmedAt(b, i, TrimmedForm(b).transactions[i]);
    }
    CodesAgree(TrimmedForm(b).transactions, Filter(b).transactions, txid);
  }

  /** A block that parses gets the verdict of its filtered form, and any other panics. */
  lemma VerdictsAgree(r: Received, txid: string, h1: seq<Delivered>, h2: seq<Delivered>)
    requires r.Message? && (CarriesBlock(r) ==> Filterable(r.response.block))
    ensures Chain(WaitChain(txid), Translate(r.response), h1)
            == if BlockParses(r) then Chain(WaitChain(txid), Translate(FilterReceived(r).response), h2) else Panic
  {
    ChainOfTwo(txid, Translate(r.response), h1);
    ChainOfTwo(txid, Translate(FilterReceived(r).response), h2);
    if CarriesBlock(r) && BlockParses(r) {
      BlockCode(r.response.block, txid);
    }
  }

  /** How a full and a filtered run over `stream` end that both had `h` responses before. */
  predicate EndAlike(stream: seq<Received>, h: nat, full: Outcome, filtered: Outcome) {
    if filtered.Panicked? then full.Panicked?
    else
      && h <= |filtered.responses| <= h + |stream|
      && (SameResult(full, filtered) <==> BlocksParse(stream, |filtered.responses| - h))
      && (!SameResult(full, filtered) ==> full.Panicked?)
  }

  lemma FirstParses(stream: seq<Received>, n: nat)
    requires n < |stream|
    ensures BlocksParse(stream, n + 1) <==> BlockParses(stream[0]) && BlocksParse(stream[1..], n)
  {
    assert forall k | 1 <= k < |stream| :: stream[k] == stream[1..][k - 1];
    assert forall k | 0 <= k < n :: stream[1..][k] == stream[k + 1];
  }

  /** One more message before, whose block parses. */
  lemma AlikeBefore(stream: seq<Received>, h: nat, full: Outcome, filtered: Outcome)
    requires stream != [] && EndAlike(stream[1..], h + 1, full, filtered) && BlockParses(stream[0])
    ensures EndAlike(stream, h, full, filtered)
  {
    if !filtered.Panicked? {
      FirstParses(stream, |filtered.responses| - h - 1);
    }
  }

  /** A run that ends at its first message, or panics there because the block does not parse. */
  lemma AlikeAtOnce(stream: seq<Received>, h: nat, full: Outcome, filtered: Outcome)
    requires stream != [] && !filtered.Panicked? && |filtered.responses| == h + 1
    requires if BlockParses(stream[0]) then SameResult(full, filtered) else full.Panicked?
    ensures EndAlike(stream, h, full, filtered)
  {
    FirstParses(stream, 0);
  }

  /** If the first block does not parse, the full run panics, and the filtered one takes the block. */
  lemma AlikeAtPanic(stream: seq<Received>, h: nat, full: Outcome, filtered: Outcome)
    requires stream != [] && !BlockParses(stream[0]) && full.Panicked?
    requires !filtered.Panicked? ==> h + 1 <= |filtered.responses| <= h + |stream|
    ensures EndAlike(stream, h, full, filtered)
  {
    if !filtered.Panicked? {
      FirstParses(stream, |filtered.responses| - h - 1);
    }
  }

  lemma {:induction false} ListeningFrom(
      stream: seq<Received>, txid: string, h1: seq<Delivered>, h2: seq<Delivered>)
    requires CanFilter(stream) && |h1| == |h2|
    ensures EndAlike(stream, |h1|, Receive(stream, Some(WaitChain(txid)), h1),
                     Receive(FilterStream(stream), Some(WaitChain(txid)), h2))
    decreases |stream|
  {
    if stream != [] {
      var other := FilterStream(stream);
      assert other[0] == FilterReceived(stream[0]) && other[1..] == FilterStream(stream[1..]);
      if stream[0].Message? {
        var all1 := h1 + [Translate(stream[0].response)];
        var all2 := h2 + [Translate(other[0].response)];
        VerdictsAgree(stream[0], txid, all1, all2);
        ListeningFrom(stream[1..], txid, all1, all2);
        FirstMessage(stream, other, WaitChain(txid), h1, h2);
      }
    }
  }

  /** The first message of a full and of a filtered run, for any chain that gives these verdicts. */
  lemma FirstMessage(
      stream: seq<Received>, other: seq<Received>, fcns: seq<ContinueFcn>, h1: seq<Delivered>, h2: seq<Delivered>)
    requires stream != [] && other != [] && |h1| == |h2| && stream[0].Message? && other[0].Message?
    requires var all1 := h1 + [Translate(stream[0].response)]; var all2 := h2 + [Translate(other[0].response)];
             && Chain(fcns, Translate(stream[0].response), all1)
                == (if BlockParses(stream[0]) then Chain(fcns, Translate(other[0].response), all2) else Panic)
             && EndAlike(stream[1..], |all1|, Receive(stream[1..], Some(fcns), all1),
                         Receive(other[1..], Some(fcns), all2))
    ensures EndAlike(stream, |h1|, Receive(stream, Some(fcns), h1), Receive(other, Some(fcns), h2))
  {
    var full, filtered := Receive(stream, Some(fcns), h1), Receive(other, Some(fcns), h2);
    var verdict := Chain(fcns, Translate(other[0].response), h2 + [Translate(other[0].response)]);
    if verdict.Panic? {
      assert full.Panicked? && filtered.Panicked?;
    } else if verdict.Stop? {
      AlikeAtOnce(stream, |h1|, full, filtered);
    } else if BlockParses(stream[0]) {
      AlikeBefore(stream, |h1|, full, filtered);
    } else {
      AlikeAtPanic(stream, |h1|, full, filtered);
    }
  }

  /**
   Waiting for a transaction on full blocks and on the filtered blocks of the same stream ends the
   same way, with the same receipt, at the same place, exactly when every block the filtered run took
   parses; if one of them does not, the full run panics where the filtered one goes on or stops.
   */
  lemma ListeningAgreesExactly(stream: seq<Received>, txid: string)
    requires CanFilter(stream)
    ensures var full := Receive(stream, Some(WaitChain(txid)), []);
            var filtered := Receive(FilterStream(stream), Some(WaitChain(txid)), []);
            && (SameResult(full, filtered)
                <==> filtered.Panicked?
                     || (|filtered.responses| <= |stream| && BlocksParse(stream, |filtered.responses|)))
            && (!SameResult(full, filtered) ==> full.Panicked?)
  {
    ListeningFrom(stream, txid, [], []);
  }

  /**
   In particular for every stream whose blocks all parse: both panic, or both wait after the same
   number of responses, or both return the same receipt after the same number of responses.
   */
  lemma ListeningAgrees(stream: seq<Received>, txid: string)
    requires BlocksParse(stream, |stream|)
    ensures CanFilter(stream)
    ensures var full := Receive(stream, Some(WaitChain(txid)), []);
            var filtered := Receive(FilterStream(stream), Some(WaitChain(txid)), []);
            || (full.Panicked? && filtered.Panicked?)
            || (full.Waiting? && filtered.Waiting? && |full.responses| == |filtered.responses|)
            || (full.Returned? && filtered.Returned? && full.receipt == filtered.receipt
                && |full.responses| == |filtered.responses|)
  {
    assert forall k | 0 <= k < |stream| :: BlockParses(stream[k]);
    ListeningFrom(stream, txid, [], []);
  }

  // ----- What a code receipt says

  predicate FoundAt(b: FilteredBlock, txid: string, i: nat, code: nat) {
    && i < |b.transactions|
    && b.transactions[i].txid == txid
    && b.transactions[i].txType == ENDORSER_TRANSACTION
    && b.transactions[i].validationCode == code
    && forall j | 0 <= j < i :: b.transactions[j].txid != txid || b.transactions[j].txType != ENDORSER_TRANSACTION
  }

  predicate Lacks(b: FilteredBlock, txid: string) {
    forall j | 0 <= j < |b.transactions| ::
      b.transactions[j].txid != txid || b.transactions[j].txType != ENDORSER_TRANSACTION
  }

  lemma {:induction false} FirstCodeExact(b: FilteredBlock, txid: string, code: nat)
    ensures FilteredCode(b.transactions, txid) == Some(code) <==> exists i: nat :: FoundAt(b, txid, i, code)
    ensures FilteredCode(b.transactions, txid) == None <==> Lacks(b, txid)
    decreases |b.transactions|
  {
    var txs := b.transactions;
    if txs != [] {
      var rest := b.(transactions := txs[1..]);
      FirstCodeExact(rest, txid, code);
      if txs[0].txType == ENDORSER_TRANSACTION && txs[0].txid == txid {
        assert txs[0].validationCode == code ==> FoundAt(b, txid, 0, code);
      } else {
        if i: nat :| FoundAt(rest, txid, i, code) { assert FoundAt(b, txid, i + 1, code); }
        if i: nat :| FoundAt(b, txid, i, code) {
          assert forall j | 0 <= j < i - 1 :: rest.transactions[j] == txs[j + 1];
          assert FoundAt(rest, txid, i - 1, code);
        }
        assert forall j | 1 <= j < |txs| :: txs[j] == txs[1..][j - 1];
        assert Lacks(rest, txid) ==> Lacks(b, txid);
        assert Lacks(b, txid) ==> Lacks(rest, txid) by {
          assert forall j | 0 <= j < |txs[1..]| :: txs[1..][j] == txs[j + 1];
        }
      }
    }
  }

  /** The transactions a response lists: those of its filtered block, or of a full block that parses. */
  function Listed(d: Delivered): Option<FilteredBlock> {
    if d.filtered.Some? then d.filtered
    else if d.block.Some? && WellFormed(d.block.value) then Some(Filter(d.block.value))
    else None
  }

  /** A response the wait goes on after: no status, and a block only if it parses and lacks the transaction. */
  predicate PassesBy(d: Delivered, txid: string) {
    && d.status.None?
    && (d.filtered.Some? || d.block.Some? ==> Listed(d).Some? && Lacks(Listed(d).value, txid))
  }

  /** A response whose transaction `i` is the first endorser transaction with the id, with that code. */
  predicate HoldsTx(d: Delivered, txid: string, i: nat, code: nat) {
    d.status.None? && Listed(d).Some? && FoundAt(Listed(d).value, txid, i, code)
  }

  lemma VerdictExact(d: Delivered, txid: string, history: seq<Delivered>, code: nat)
    ensures Chain(WaitChain(txid), d, history).Go? <==> PassesBy(d, txid)
    ensures Chain(WaitChain(txid), d, history) == Stop(CodeName(code)) <==> exists i: nat :: HoldsTx(d, txid, i, code)
  {
    ChainOfTwo(txid, d, history);
    if Listed(d).Some? {
      FirstCodeExact(Listed(d).value, txid, code);
      if i: nat :| FoundAt(Listed(d).value, txid, i, code) && d.status.None? {
        assert HoldsTx(d, txid, i, code);
      }
      if d.filtered.None? {
        BlockCode(d.block.value, txid);
      }
    }
  }

  /** After responses that pass by, response `k` holds the transaction, at `i`, with the code. */
  predicate ArrivesAt(stream: seq<Received>, txid: string, code: nat, responses: seq<Delivered>, k: nat, i: nat) {
    && k < |stream|
    && (forall j | 0 <= j <= k :: stream[j].Message?)
    && (forall j | 0 <= j < k :: PassesBy(Translate(stream[j].response), txid))
    && HoldsTx(Translate(stream[k].response), txid, i, code)
    && responses == Prefix(stream, k + 1)
  }

  /**
   On any stream, of full, private or filtered blocks, the wait returns a code iff some response
   holds the transaction with that code and all responses before it pass by; what it returns
   besides is the responses up to there.
   */
  lemma CodeReceiptExact(stream: seq<Received>, txid: string, code: nat, responses: seq<Delivered>)
    ensures Receive(stream, Some(WaitChain(txid)), []) == Returned(CodeName(code), responses)
            <==> exists k: nat, i: nat :: ArrivesAt(stream, txid, code, responses, k, i)
  {
    var chain := WaitChain(txid);
    ReceiveExact(stream, chain, CodeName(code), responses);
    forall j, h | 0 <= j < |stream| && stream[j].Message?
      ensures Chain(chain, Translate(stream[j].response), h).Go? <==> PassesBy(Translate(stream[j].response), txid)
    {
      VerdictExact(Translate(stream[j].response), txid, h, code);
    }
    if k: nat :| EndsAt(stream, chain, k, CodeName(code), responses) {
      VerdictExact(Translate(stream[k].response), txid, responses, code);
      var i: nat :| HoldsTx(Translate(stream[k].response), txid, i, code);
      assert ArrivesAt(stream, txid, code, responses, k, i);
    }
    if k: nat, i: nat :| ArrivesAt(stream, txid, code, responses, k, i) {
      VerdictExact(Translate(stream[k].response), txid, responses, code);
      assert GoesOn(stream, chain, k);
      assert EndsAt(stream, chain, k, CodeName(code), responses);
    }
  }
}
