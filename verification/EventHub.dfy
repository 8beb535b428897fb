/** The event collectors: promises settled by the callbacks an event hub delivers one by one. */
module EventHub {
  import opened Text

  /** What a callback is given: an error, or an event. */
  datatype HubEvent<E> = Error(message: string) | Arrived(event: E)

  datatype Settled<V> = Pending | Resolved(value: V) | Rejected(message: string)

  function Settle<V>(p: Settled<V>, outcome: Settled<V>): Settled<V> { if p.Pending? then outcome else p }

  datatype Block = Block(number: nat, content: nat)

  datatype TxEvent = TxEvent(blockNumber: nat, transactionId: string, status: string)

  const VALID := "VALID"

  /** The first `n` events are all there and none is an error. */
  predicate Arrives<E>(events: seq<HubEvent<E>>, n: nat) {
    n <= |events| && forall i | 0 <= i < n :: events[i].Arrived?
  }

  /** Event `i` is the first error. */
  predicate FirstErrorAt<E>(events: seq<HubEvent<E>>, i: nat) {
    i < |events| && events[i].Error? && forall j | 0 <= j < i :: events[j].Arrived?
  }

  /**
   `waitForBlocks`. The listener is dropped when the promise is resolved, not when it is rejected.
   It resolves with the block after `futureSteps` others, unless an error comes no later.
   */
  method WaitForBlocks(events: seq<HubEvent<Block>>, futureSteps: int) returns (p: Settled<Block>)
    ensures var n := if futureSteps < 0 then 0 else futureSteps;
            && (forall b :: p == Resolved(b) <==> Arrives(events, n + 1) && b == events[n].event)
            && (forall m :: p == Rejected(m) <==>
                  exists i: nat :: i <= n && FirstErrorAt(events, i) && m == events[i].message)
  {
    p := Pending;
    var futureBlocks: seq<Block> := [];
    var registered := true;
    var k := 0;
    ghost var n := if futureSteps < 0 then 0 else futureSteps;
    while k < |events| && registered
      invariant 0 <= k <= |events|
      invariant |futureBlocks| <= n
      invariant p == Pending ==> registered && k == |futureBlocks| && Arrives(events, k)
      invariant p.Resolved? ==> Arrives(events, n + 1) && p.value == events[n].event
      invariant p.Rejected? ==> exists i: nat :: i <= n && FirstErrorAt(events, i) && p.message == events[i].message
    {
      match events[k] {
        case Error(m) =>
          if p == Pending { assert FirstErrorAt(events, k); }
          p := Settle(p, Rejected(m));
        case Arrived(block) =>
          if |futureBlocks| < futureSteps {
            futureBlocks := futureBlocks + [block];
          } else {
            registered := false;
            p := Settle(p, Resolved(block));
          }
      }
      k := k + 1;
    }
  }

  /** With consecutive numbers from `h` on, waiting for `k` blocks gives block `h + k`. */
  lemma WaitsForNumber(events: seq<HubEvent<Block>>, h: nat, k: nat)
    requires Arrives(events, k + 1)
    requires forall i | 0 <= i + 1 <= k && i >= 0 :: events[i + 1].event.number == events[i].event.number + 1
    requires events[0].event.number == h
    ensures events[k].event.number == h + k
  {
    var i := 0;
    while i < k
      invariant 0 <= i <= k && events[i].event.number == h + i
    {
      assert events[i + 1].event.number == events[i].event.number + 1;
      i := i + 1;
    }
  }

  /** `waitUntilBlock`: the first block with the wanted number, unless an error comes before it. */
  method WaitUntilBlock(events: seq<HubEvent<Block>>, targetHeight: nat) returns (p: Settled<Block>)
    ensures forall b :: p == Resolved(b) <==>
              exists i: nat :: Arrives(events, i + 1) && b == events[i].event && b.number == targetHeight
                               && forall j | 0 <= j < i :: events[j].event.number != targetHeight
    ensures forall m :: p == Rejected(m) <==>
              exists i: nat :: FirstErrorAt(events, i) && m == events[i].message
                               && forall j | 0 <= j < i :: events[j].event.number != targetHeight
  {
    p := Pending;
    var registered := true;
    var k := 0;
    while k < |events| && registered
      invariant 0 <= k <= |events|
      invariant p == Pending ==> registered && Arrives(events, k)
                                 && forall j | 0 <= j < k :: events[j].event.number != targetHeight
      invariant p.Resolved? ==>
                  exists i: nat ::
                    && Arrives(events, i + 1)
                    && p.value == events[i].event && p.value.number == targetHeight
                    && forall j | 0 <= j < i :: events[j].event.number != targetHeight
      invariant p.Rejected? ==>
                  exists i: nat :: FirstErrorAt(events, i) && p.message == events[i].message
                                   && forall j | 0 <= j < i :: events[j].event.number != targetHeight
    {
      match events[k] {
        case Error(m) =>
          if p == Pending { assert FirstErrorAt(events, k); }
          p := Settle(p, Rejected(m));
        case Arrived(block) =>
          if block.number == targetHeight {
            registered := false;
            if p == Pending { assert Arrives(events, k + 1); }
            p := Settle(p, Resolved(block));
          }
      }
      k := k + 1;
    }
  }

  /**
   `replayTx`; without an amount the promise never resolves. It resolves with exactly the first
   transactions, at least one of them, and an error among these rejects instead.
   */
  method ReplayTx(events: seq<HubEvent<TxEvent>>, maxTxAmount: Option<int>) returns (p: Settled<seq<TxEvent>>)
    ensures maxTxAmount.Some? ==>
              var n := if maxTxAmount.value < 1 then 1 else maxTxAmount.value;
              && (p.Resolved? <==> Arrives(events, n))
              && (p.Resolved? ==> |p.value| == n && forall i | 0 <= i < n :: p.value[i] == events[i].event)
              && (forall m :: p == Rejected(m) <==>
                    exists i: nat :: i < n && FirstErrorAt(events, i) && m == events[i].message)
    ensures maxTxAmount.None? ==>
              !p.Resolved?
              && (forall m :: p == Rejected(m) <==> exists i: nat :: FirstErrorAt(events, i) && m == events[i].message)
  {
    p := Pending;
    var result: seq<TxEvent> := [];
    var registered := true;
    var k := 0;
    while k < |events| && registered
      invariant 0 <= k <= |events|
      invariant registered <==> p == Pending
      invariant registered ==> Arrives(events, k) && |result| == k
                               && forall i | 0 <= i < k :: result[i] == events[i].event
      invariant registered && maxTxAmount.Some? ==> k == 0 || k < maxTxAmount.value
      invariant p.Resolved? ==> maxTxAmount.Some? && Arrives(events, k)
                                && k == (if maxTxAmount.value < 1 then 1 else maxTxAmount.value)
                                && |p.value| == k && forall i | 0 <= i < k :: p.value[i] == events[i].event
      invariant p.Rejected? ==> k > 0 && FirstErrorAt(events, k - 1) && p.message == events[k - 1].message
                                && (maxTxAmount.Some? ==> k == 1 || k - 1 < maxTxAmount.value)
    {
      match events[k] {
        case Error(m) =>
          registered := false;
          p := Settle(p, Rejected(m));
        case Arrived(e) =>
          result := result + [e];
          if maxTxAmount.Some? && |result| >= maxTxAmount.value {
            registered := false;
            p := Settle(p, Resolved(result));
          }
      }
      k := k + 1;
    }
  }

  /** The outcome of `waitForTx`: the first event decides, and only a VALID one resolves. */
  function WaitForTx(events: seq<HubEvent<TxEvent>>): Settled<TxEvent> {
    if events == [] then Pending
    else
      match events[0]
      case Error(m) => Rejected(m)
      case Arrived(e) =>
        if e.status != VALID then Rejected("Invalid transaction status [" + e.status + "]") else Resolved(e)
  }

  /** All its outcomes, with the status and the message written out. */
  lemma WaitForTxExactly(events: seq<HubEvent<TxEvent>>)
    ensures WaitForTx(events).Pending? <==> events == []
    ensures forall e :: WaitForTx(events) == Resolved(e) <==>
              events != [] && events[0] == Arrived(e) && e.status == "VALID"
    ensures forall m :: WaitForTx(events) == Rejected(m) <==>
              events != [] && match events[0]
                              case Error(message) => m == message
                              case Arrived(e) =>
                                e.status != "VALID" && m == "Invalid transaction status [" + e.status + "]"
  {
  }
}
