/** The receive loop over a peer's deliver stream and the chain of predicates that stops it. */
module Delivery {
  import opened Text
  import opened FullBlock

  datatype FilteredTransaction = FilteredTransaction(txid: string, txType: int, validationCode: nat)
  datatype FilteredBlock = FilteredBlock(channelId: string, number: nat, transactions: seq<FilteredTransaction>)

  type PrivateData = map<nat, nat>

  /** The response kinds a peer may send; `Unset` is a response without a type. */
  datatype Response =
    | StatusResponse(status: nat)
    | BlockResponse(block: Block)
    | FilteredResponse(filtered: FilteredBlock)
    | PrivateResponse(block: Block, privateData: PrivateData)
    | Unset

  /** What one `Recv` gives. */
  datatype Received = Message(response: Response) | EOF | Failure

  /** `DeliverResponseType` */
  datatype Delivered = Delivered(
    status: Option<nat>, block: Option<Block>, filtered: Option<FilteredBlock>, privateData: Option<PrivateData>)

  function Translate(r: Response): Delivered {
    match r
    case StatusResponse(s) => Delivered(Some(s), None, None, None)
    case BlockResponse(b) => Delivered(None, Some(b), None, None)
    case FilteredResponse(f) => Delivered(None, None, Some(f), None)
    case PrivateResponse(b, p) => Delivered(None, Some(b), None, Some(p))
    case Unset => Delivered(None, None, None, None)
  }

  /** The response a translation came from. */
  function Origin(d: Delivered): Response {
    match d
    case Delivered(Some(s), _, _, _) => StatusResponse(s)
    case Delivered(None, Some(b), _, None) => BlockResponse(b)
    case Delivered(None, Some(b), _, Some(p)) => PrivateResponse(b, p)
    case Delivered(None, None, Some(f), _) => FilteredResponse(f)
    case Delivered(None, None, None, _) => Unset
  }

  /** `ReceiveExact` below speaks of translated responses; translating keeps kind and content. */
  lemma TranslationKeepsAll(r: Response)
    ensures Origin(Translate(r)) == r
  {
  }

  datatype Receipt = Nil | StatusName(status: nat) | CodeName(code: nat) | Custom(text: string)

  /** A predicate's answer: go on, stop with a receipt, or panic. */
  datatype Verdict = Go(ignored: Receipt) | Stop(receipt: Receipt) | Panic

  type ContinueFcn = (Delivered, seq<Delivered>) -> Verdict

  const STATUS_SUCCESS := 200
  const STATUS_NOT_FOUND := 404

  /** The predicate `ContinueBuilder` puts first. */
  function DefaultFcn(current: Delivered, history: seq<Delivered>): Verdict {
    match current.status
    case Some(s) => if s == STATUS_SUCCESS || s == STATUS_NOT_FOUND then Stop(StatusName(s)) else Panic
    case None => Go(Nil)
  }

  /** The answer of the chain, given as the first answer that is not to go on. */
  function Chain(fcns: seq<ContinueFcn>, current: Delivered, history: seq<Delivered>): Verdict {
    if fcns == [] then Go(Nil)
    else if fcns[0](current, history).Go? then Chain(fcns[1..], current, history)
    else fcns[0](current, history)
  }

  /** Predicate `i` is the first in the chain that does not say to go on. */
  predicate FirstDecides(fcns: seq<ContinueFcn>, current: Delivered, history: seq<Delivered>, i: nat) {
    && i < |fcns|
    && !fcns[i](current, history).Go?
    && forall j | 0 <= j < i :: fcns[j](current, history).Go?
  }

  /** The chain goes on iff all predicates do, and otherwise answers like the first that does not. */
  lemma {:induction false} ChainExact(fcns: seq<ContinueFcn>, current: Delivered, history: seq<Delivered>)
    ensures Chain(fcns, current, history).Go? <==> forall i | 0 <= i < |fcns| :: fcns[i](current, history).Go?
    ensures Chain(fcns, current, history).Go? ==> Chain(fcns, current, history) == Go(Nil)
    ensures forall i: nat | FirstDecides(fcns, current, history, i) ::
              Chain(fcns, current, history) == fcns[i](current, history)
    ensures !Chain(fcns, current, history).Go? ==> exists i: nat :: FirstDecides(fcns, current, history, i)
  {
    if fcns != [] {
      ChainExact(fcns[1..], current, history);
      assert forall i | 1 <= i < |fcns| :: fcns[i] == fcns[1..][i - 1];
      if fcns[0](current, history).Go? {
        forall i: nat | FirstDecides(fcns, current, history, i)
          ensures Chain(fcns, current, history) == fcns[i](current, history)
        {
          assert FirstDecides(fcns[1..], current, history, i - 1);
        }
        if !Chain(fcns, current, history).Go? {
          var i: nat :| FirstDecides(fcns[1..], current, history, i);
          assert FirstDecides(fcns, current, history, i + 1);
        }
      } else {
        assert FirstDecides(fcns, current, history, 0);
      }
    }
  }

  /** `Waiting` when the stream has nothing more to give yet. */
  datatype Outcome =
    | Returned(receipt: Receipt, responses: seq<Delivered>)
    | Panicked
    | Waiting(responses: seq<Delivered>)

  /** The receive loop, from a given history on. A missing `Continue` panics when it is called. */
  function Receive(stream: seq<Received>, fcns: Option<seq<ContinueFcn>>, history: seq<Delivered>): Outcome
    decreases |stream|
  {
    if stream == [] then Waiting(history)
    else
      match stream[0]
      case EOF => Returned(Nil, history)
      case Failure => Panicked
      case Message(r) =>
        if fcns == None then Panicked
        else
          var all := history + [Translate(r)];
          match Chain(fcns.value, Translate(r), all)
          case Go(_) => Receive(stream[1..], fcns, all)
          case Stop(receipt) => Returned(receipt, all)
          case Panic => Panicked
  }

  class Eventer {
    /** The predicates behind `Continue`; none when it was never assigned. */
    var continueFcns: Option<seq<ContinueFcn>>

    constructor ()
      ensures continueFcns == None
    {
      continueFcns := None;
    }

    /** `eventer.Continue = ContinueBuilder(fcns...)` */
    method ContinueBuilder(fcns: seq<ContinueFcn>)
      modifies this
      ensures continueFcns == Some([DefaultFcn] + fcns)
    {
      continueFcns := Some([DefaultFcn] + fcns);
    }

    /** The closure `ContinueBuilder` makes. */
    method Continue(current: Delivered, history: seq<Delivered>) returns (v: Verdict)
      ensures v == match continueFcns case Some(fcns) => Chain(fcns, current, history) case None => Panic
    {
      if continueFcns.None? {
        return Panic;
      }
      var fcns := continueFcns.value;
      var i := 0;
      while i < |fcns|
        invariant 0 <= i <= |fcns|
        invariant Chain(fcns, current, history) == Chain(fcns[i..], current, history)
      {
        var answer := fcns[i](current, history);
        if !answer.Go? {
          return answer;
        }
        i := i + 1;
      }
      return Go(Nil);
    }

    /** `stream` is what `Recv` will give, call by call; a failing `Send` panics. */
    method SendRecv(sendFails: bool, stream: seq<Received>) returns (r: Outcome)
      ensures r == if sendFails then Panicked else Receive(stream, continueFcns, [])
    {
      if sendFails {
        return Panicked;
      }
      var deliverResponses: seq<Delivered> := [];
      var receiptData := Nil;
      var next := 0;
      while next < |stream|
        invariant 0 <= next <= |stream| && receiptData == Nil
        invariant Receive(stream, continueFcns, []) == Receive(stream[next..], continueFcns, deliverResponses)
      {
        var received := stream[next];
        next := next + 1;
        match received {
          case EOF => return Returned(receiptData, deliverResponses);
          case Failure => return Panicked;
          case Message(response) =>
            var translated := Translate(response);
            deliverResponses := deliverResponses + [translated];
            var verdict := Continue(translated, deliverResponses);
            match verdict {
              case Panic => return Panicked;
              case Stop(receipt) => return Returned(receipt, deliverResponses);
              case Go(result) =>
                if continueFcns.Some? { ChainExact(continueFcns.value, translated, deliverResponses); }
                receiptData := result;
            }
        }
      }
      return Waiting(deliverResponses);
    }
  }

  // ----- Exactness of the receive loop

  /** The translations of the first `k` messages. */
  function Prefix(stream: seq<Received>, k: nat): (r: seq<Delivered>)
    requires k <= |stream| && forall j | 0 <= j < k :: stream[j].Message?
    ensures |r| == k
  {
    seq(k, j requires 0 <= j < k => Translate(stream[j].response))
  }

  /** Every one of the first `k` messages makes all predicates go on. */
  predicate GoesOn(stream: seq<Received>, fcns: seq<ContinueFcn>, k: nat) {
    && k <= |stream|
    && (forall j | 0 <= j < k :: stream[j].Message?)
    && (forall j | 0 <= j < k :: Chain(fcns, Translate(stream[j].response), Prefix(stream, j + 1)).Go?)
  }

  /** After `k` messages that go on, the loop ends: at the end of the stream, or because message `k` stops it. */
  predicate EndsAt(stream: seq<Received>, fcns: seq<ContinueFcn>, k: nat, receipt: Receipt, responses: seq<Delivered>) {
    && GoesOn(stream, fcns, k)
    && k < |stream|
    && match stream[k]
       case EOF => receipt == Nil && responses == Prefix(stream, k)
       case Failure => false
       case Message(r) =>
         responses == Prefix(stream, k + 1) && Chain(fcns, Translate(r), responses) == Stop(receipt)
  }

  lemma {:induction false} ReceiveSkips(stream: seq<Received>, fcns: seq<ContinueFcn>, k: nat)
    requires GoesOn(stream, fcns, k)
    ensures Receive(stream, Some(fcns), []) == Receive(stream[k..], Some(fcns), Prefix(stream, k))
  {
    if k == 0 {
      assert stream[0..] == stream && Prefix(stream, 0) == [];
    } else {
      ReceiveSkips(stream, fcns, k - 1);
      assert stream[k - 1..][1..] == stream[k..];
      assert Prefix(stream, k - 1) + [Translate(stream[k - 1].response)] == Prefix(stream, k);
    }
  }

  /** How far a run gets before something other than going on happens. */
  lemma {:induction false} LongestPrefix(stream: seq<Received>, fcns: seq<ContinueFcn>) returns (k: nat)
    ensures GoesOn(stream, fcns, k)
    ensures k < |stream| ==> !GoesOn(stream, fcns, k + 1)
  {
    k := 0;
    while k < |stream| && GoesOn(stream, fcns, k + 1)
      invariant GoesOn(stream, fcns, k)
    {
      k := k + 1;
    }
  }

  lemma OnlyOnePrefix(stream: seq<Received>, fcns: seq<ContinueFcn>, k: nat, k': nat)
    requires GoesOn(stream, fcns, k) && k < |stream| && !GoesOn(stream, fcns, k + 1)
    requires GoesOn(stream, fcns, k') && (k' < |stream| ==> !GoesOn(stream, fcns, k' + 1))
    ensures k == k'
  {
    if k < k' {
      assert GoesOn(stream, fcns, k + 1);
    } else if k' < k {
      assert GoesOn(stream, fcns, k' + 1);
    }
  }

  lemma EndStopsPrefix(
      stream: seq<Received>, fcns: seq<ContinueFcn>, k: nat, receipt: Receipt, responses: seq<Delivered>)
    requires EndsAt(stream, fcns, k, receipt, responses)
    ensures !GoesOn(stream, fcns, k + 1)
  {
  }

  /**
   Exactness: `SendRecv` returns a receipt and responses iff, after some number of messages on
   which every predicate goes on, the stream ends (no receipt) or the next message is stopped by
   the first predicate that does not go on (its receipt), the responses being exactly the
   translated messages up to there.
   */
  lemma ReceiveExact(stream: seq<Received>, fcns: seq<ContinueFcn>, receipt: Receipt, responses: seq<Delivered>)
    ensures Receive(stream, Some(fcns), []) == Returned(receipt, responses)
            <==> exists k: nat :: EndsAt(stream, fcns, k, receipt, responses)
  {
    var k := LongestPrefix(stream, fcns);
    ReceiveSkips(stream, fcns, k);
    if k < |stream| && stream[k].Message? {
      assert Prefix(stream, k) + [Translate(stream[k].response)] == Prefix(stream, k + 1);
    }
    if Receive(stream, Some(fcns), []) == Returned(receipt, responses) {
      assert stream[k..] != [] && stream[k..][0] == stream[k];
      assert EndsAt(stream, fcns, k, receipt, responses);
    }
    if j: nat :| EndsAt(stream, fcns, j, receipt, responses) {
      EndStopsPrefix(stream, fcns, j, receipt, responses);
      OnlyOnePrefix(stream, fcns, j, k);
      assert stream[k..][0] == stream[k];
    }
  }

  /** After `k` messages that go on `Recv` fails, or message `k` makes a predicate panic. */
  predicate PanicsAt(stream: seq<Received>, fcns: seq<ContinueFcn>, k: nat) {
    && GoesOn(stream, fcns, k) && k < |stream|
    && match stream[k]
       case EOF => false
       case Failure => true
       case Message(r) => Chain(fcns, Translate(r), Prefix(stream, k + 1)).Panic?
  }

  /**
   When it panics: after some messages on which every predicate goes on, `Recv` fails or the first
   predicate that does not go on panics. Without any predicate the first message does.
   */
  lemma PanicsExactly(stream: seq<Received>, fcns: seq<ContinueFcn>)
    ensures Receive(stream, Some(fcns), []).Panicked? <==> exists k: nat :: PanicsAt(stream, fcns, k)
    ensures Receive(stream, None, []).Panicked? <==> stream != [] && !stream[0].EOF?
  {
    var k := LongestPrefix(stream, fcns);
    AtPrefix(stream, fcns, k);
    assert Receive(stream, Some(fcns), []).Panicked? ==> PanicsAt(stream, fcns, k);
    if j: nat :| PanicsAt(stream, fcns, j) {
      OnlyOnePrefix(stream, fcns, j, k);
    }
  }

  /** What follows the messages that go on decides. */
  lemma AtPrefix(stream: seq<Received>, fcns: seq<ContinueFcn>, k: nat)
    requires GoesOn(stream, fcns, k) && (k < |stream| ==> !GoesOn(stream, fcns, k + 1))
    ensures k == |stream| ==> Receive(stream, Some(fcns), []) == Waiting(Prefix(stream, k))
    ensures k < |stream| ==> (Receive(stream, Some(fcns), []).Panicked? <==> PanicsAt(stream, fcns, k))
    ensures k < |stream| ==> !Receive(stream, Some(fcns), []).Waiting?
  {
    ReceiveSkips(stream, fcns, k);
    if k < |stream| {
      assert stream[k..][0] == stream[k];
      if stream[k].Message? {
        var all := Prefix(stream, k) + [Translate(stream[k].response)];
        PrefixStep(stream, k);
        assert !Chain(fcns, Translate(stream[k].response), all).Go?;
      }
    }
  }

  lemma PrefixStep(stream: seq<Received>, k: nat)
    requires k < |stream| && forall j | 0 <= j <= k :: stream[j].Message?
    ensures Prefix(stream, k + 1) == Prefix(stream, k) + [Translate(stream[k].response)]
  {
  }

  /** It is still waiting iff every message so far goes on, and all of them are kept. */
  lemma WaitsExactly(stream: seq<Received>, fcns: seq<ContinueFcn>, responses: seq<Delivered>)
    ensures Receive(stream, Some(fcns), []) == Waiting(responses)
            <==> GoesOn(stream, fcns, |stream|) && responses == Prefix(stream, |stream|)
  {
    var k := LongestPrefix(stream, fcns);
    AtPrefix(stream, fcns, k);
    if GoesOn(stream, fcns, |stream|) && k < |stream| {
      assert GoesOn(stream, fcns, k + 1);
    }
  }

  /** A corollary of `ChainExact`: a built chain asks the default status predicate before all others. */
  lemma StatusDecidesFirst(fcns: seq<ContinueFcn>, status: nat, history: seq<Delivered>)
    ensures Chain([DefaultFcn] + fcns, Translate(StatusResponse(status)), history)
            == if status == 200 || status == 404 then Stop(StatusName(status)) else Panic
  {
    assert ([DefaultFcn] + fcns)[0] == DefaultFcn;
  }
}
