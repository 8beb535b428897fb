/** `sendDeliver`: one deliver call to an orderer as an event-driven promise. */
module OrdererDeliver {
  import opened Text

  datatype Status = Named(name: string) | Numbered(code: int)

  datatype Response<B> = FullBlock(block: B) | StatusResponse(status: Status) | OtherType

  /** What may happen to a call, in any order: stream events and the firing of its timer. */
  datatype Event<B> =
    | Data(response: Response<B>)
    | StatusEvent
    | End
    | StreamError(code: int, message: string)
    | Timeout

  datatype Failure =
    | TimedOut(message: string)
    | InvalidStatus(status: Status)
    | SystemError
    | StreamFailed(message: string, originalMessage: Option<string>)

  datatype Promise<B> = Pending | Resolved(blocks: seq<B>) | Rejected(failure: Failure)

  predicate IsSuccess(s: Status) { s == Named("SUCCESS") || s == Numbered(200) }

  function FailureOf(code: int, message: string): Failure {
    if code == 14 then StreamFailed("SERVICE_UNAVAILABLE", Some(message)) else StreamFailed(message, None)
  }

  // ----- The state machine

  /** `blocks` of a resolved promise are those in `responses` at the moment of resolving. */
  datatype State<B> = State(
    responses: seq<B>, promise: Promise<B>, streamEnds: nat, streamCancels: nat, timerArmed: bool)

  function Initial<B>(): State<B> { State([], Pending, 0, 0, true) }

  /** A promise keeps its first settlement. */
  function Settle<B>(p: Promise<B>, outcome: Promise<B>): Promise<B> { if p.Pending? then outcome else p }

  function EndAndSettle<B>(s: State<B>, outcome: Promise<B>): State<B> {
    s.(promise := Settle(s.promise, outcome), streamEnds := s.streamEnds + 1)
  }

  function Step<B>(s: State<B>, e: Event<B>): State<B> {
    match e
    case Data(FullBlock(b)) => s.(responses := s.responses + [b])
    case Data(StatusResponse(status)) =>
      EndAndSettle(s, if IsSuccess(status) then Resolved(s.responses) else Rejected(InvalidStatus(status)))
    case Data(OtherType) => EndAndSettle(s, Rejected(SystemError))
    case StatusEvent => s
    case End => s.(timerArmed := false, streamCancels := s.streamCancels + 1)
    case StreamError(code, message) => EndAndSettle(s, Rejected(FailureOf(code, message)))
    case Timeout =>
      if s.timerArmed then EndAndSettle(s.(timerArmed := false), Rejected(TimedOut("REQUEST_TIMEOUT"))) else s
  }

  function Run<B>(events: seq<Event<B>>): State<B> {
    if events == [] then Initial() else Step(Run(events[..|events| - 1]), events[|events| - 1])
  }

  // ----- The call

  class JsArray<B> {
    var items: seq<B>

    constructor ()
      ensures items == []
    {
      items := [];
    }

    method Push(b: B)
      modifies this
      ensures items == old(items) + [b]
    {
      items := items + [b];
    }
  }

  /** The promise of a call holds the very array its handlers push to. */
  datatype Settlement<B> = Unsettled | ResolvedWith(value: JsArray<B>) | RejectedWith(failure: Failure)

  class DeliverCall<B(!new)> {
    const responses: JsArray<B>
    var settlement: Settlement<B>
    var streamEnds: nat
    var streamCancels: nat
    var timerArmed: bool
    var errorMessage: string
    ghost var events: seq<Event<B>>

    /** The fields are those of the state machine after the events so far. */
    ghost predicate Valid()
      reads this, responses
    {
      var s := Run(events);
      && responses.items == s.responses
      && streamEnds == s.streamEnds
      && streamCancels == s.streamCancels
      && timerArmed == s.timerArmed
      && errorMessage == "REQUEST_TIMEOUT"
      && match s.promise
         case Pending => settlement == Unsettled
         case Resolved(_) => settlement == ResolvedWith(responses)
         case Rejected(f) => settlement == RejectedWith(f)
    }

    /** Array, stream and timer after any events. */
    lemma Observed()
      requires Valid()
      ensures responses.items == Blocks(events)
      ensures streamEnds == Closings(events) && streamCancels == EndsAmong(events)
      ensures timerArmed <==> forall j | 0 <= j < |events| :: !events[j].End? && !events[j].Timeout?
    {
      ResponsesAfter(events);
      StreamClosedExactly(events);
      TimerAfter(events);
    }

    /** Whether and how the caller's promise is settled after any events. */
    lemma SettledExactly()
      requires Valid()
      ensures settlement == Unsettled <==> forall k | 0 <= k < |events| :: !Settles(events, k)
      ensures settlement == ResolvedWith(responses)
              <==> exists k: nat :: FirstSettles(events, k) && IsSuccessStatus(events[k])
      ensures forall f :: settlement == RejectedWith(f)
                          <==> exists k: nat :: FirstSettles(events, k) && RejectsWith(events[k], f)
    {
      PendingExactly(events);
      ResolvedIff(events);
      RejectedIff(events);
    }

    /** Arms the timer, registers the handlers and writes the envelope. */
    constructor ()
      ensures Valid() && events == [] && fresh(responses)
    {
      responses := new JsArray<B>();
      settlement := Unsettled;
      streamEnds := 0;
      streamCancels := 0;
      timerArmed := true;
      errorMessage := "SYSTEM_TIMEOUT";
      events := [];
      new;
      errorMessage := "REQUEST_TIMEOUT";
    }

    ghost method Record(e: Event<B>)
      modifies `events
      ensures events == old(events) + [e] && Run(events) == Step(Run(old(events)), e)
    {
      events := events + [e];
      assert events[..|events| - 1] == old(events);
    }

    method Resolve(value: JsArray<B>)
      modifies `settlement
      ensures settlement == if old(settlement).Unsettled? then ResolvedWith(value) else old(settlement)
    {
      if settlement.Unsettled? {
        settlement := ResolvedWith(value);
      }
    }

    method Reject(failure: Failure)
      modifies `settlement
      ensures settlement == if old(settlement).Unsettled? then RejectedWith(failure) else old(settlement)
    {
      if settlement.Unsettled? {
        settlement := RejectedWith(failure);
      }
    }

    method EndStream()
      modifies `streamEnds
      ensures streamEnds == old(streamEnds) + 1
    {
      streamEnds := streamEnds + 1;
    }

    /** The timer's callback; a cleared timer does not run it. */
    method OnTimeout()
      requires Valid()
      modifies this
      ensures Valid() && events == old(events) + [Timeout]
    {
      if timerArmed {
        timerArmed := false;
        EndStream();
        Reject(TimedOut(errorMessage));
      }
      Record(Timeout);
    }

    method OnData(response: Response<B>)
      requires Valid()
      modifies this, responses
      ensures Valid() && events == old(events) + [Data(response)]
    {
      match response {
        case FullBlock(block) =>
          responses.Push(block);
        case StatusResponse(status) =>
          if status == Named("SUCCESS") || status == Numbered(200) {
            EndStream();
            Resolve(responses);
          } else {
            EndStream();
            Reject(InvalidStatus(status));
          }
        case OtherType =>
          EndStream();
          Reject(SystemError);
      }
      Record(Data(response));
    }

    method OnStatus()
      requires Valid()
      modifies this
      ensures Valid() && events == old(events) + [StatusEvent]
    {
      Record(StatusEvent);
    }

    /** Clears the timer and cancels the stream; the promise is left alone. */
    method OnEnd()
      requires Valid()
      modifies this
      ensures Valid() && events == old(events) + [End]
    {
      timerArmed := false;
      streamCancels := streamCancels + 1;
      Record(End);
    }

    method OnError(code: int, message: string)
      requires Valid()
      modifies this
      ensures Valid() && events == old(events) + [StreamError(code, message)]
    {
      EndStream();
      var failure := StreamFailed(message, None);
      if code == 14 {
        failure := StreamFailed("SERVICE_UNAVAILABLE", Some(message));
      }
      Reject(failure);
      Record(StreamError(code, message));
    }
  }

  // ----- Exactly when and how a call settles

  /** The blocks among some events, in order. */
  function Blocks<B>(events: seq<Event<B>>): seq<B> {
    if events == [] then []
    else
      var last := events[|events| - 1];
      Blocks(events[..|events| - 1]) + if last.Data? && last.response.FullBlock? then [last.response.block] else []
  }

  /** Event `k` settles a call nothing has settled before: a timeout only while its timer is armed. */
  predicate Settles<B(!new)>(events: seq<Event<B>>, k: nat)
    requires k < |events|
  {
    match events[k]
    case Data(r) => !r.FullBlock?
    case StreamError(_, _) => true
    case Timeout => forall j | 0 <= j < k :: !events[j].End? && !events[j].Timeout?
    case _ => false
  }

  predicate FirstSettles<B(!new)>(events: seq<Event<B>>, k: nat) {
    k < |events| && Settles(events, k) && forall j | 0 <= j < k :: !Settles(events, j)
  }

  /** The settlement event `k` brings. */
  function Outcome<B>(e: Event<B>, received: seq<B>): Promise<B> {
    match e
    case Data(StatusResponse(status)) =>
      if IsSuccess(status) then Resolved(received) else Rejected(InvalidStatus(status))
    case StreamError(code, message) => Rejected(FailureOf(code, message))
    case Timeout => Rejected(TimedOut("REQUEST_TIMEOUT"))
    case _ => Rejected(SystemError)
  }

  lemma {:induction false} TimerAfter<B(!new)>(events: seq<Event<B>>)
    ensures Run(events).timerArmed <==> forall j | 0 <= j < |events| :: !events[j].End? && !events[j].Timeout?
  {
    if events != [] {
      var front := events[..|events| - 1];
      TimerAfter(front);
      assert forall j | 0 <= j < |front| :: front[j] == events[j];
    }
  }

  lemma {:induction false} ResponsesAfter<B>(events: seq<Event<B>>)
    ensures Run(events).responses == Blocks(events)
  {
    if events != [] {
      ResponsesAfter(events[..|events| - 1]);
    }
  }

  lemma SettlesInPrefix<B(!new)>(events: seq<Event<B>>, n: nat, k: nat)
    requires k < n <= |events|
    ensures Settles(events[..n], k) <==> Settles(events, k)
  {
    assert forall j | 0 <= j < n :: events[..n][j] == events[j];
  }

  /** Whether a handler ends the stream and settles. */
  predicate Closes<B>(s: State<B>, e: Event<B>) {
    match e
    case Data(r) => !r.FullBlock?
    case StreamError(_, _) => true
    case Timeout => s.timerArmed
    case _ => false
  }

  lemma StepOutcome<B>(s: State<B>, e: Event<B>)
    ensures Step(s, e).promise == if Closes(s, e) then Settle(s.promise, Outcome(e, s.responses)) else s.promise
    ensures Step(s, e).streamEnds == s.streamEnds + if Closes(s, e) then 1 else 0
  {
  }

  /** The last event ends the stream iff it is a settling one, and then brings its outcome. */
  lemma LastEvent<B(!new)>(events: seq<Event<B>>)
    requires events != []
    ensures var n := |events| - 1; var before := Run(events[..n]); var after := Run(events);
            && after.promise == (if Settles(events, n)
                                 then Settle(before.promise, Outcome(events[n], Blocks(events[..n])))
                                 else before.promise)
            && after.streamEnds == before.streamEnds + if Settles(events, n) then 1 else 0
  {
    var n := |events| - 1;
    StepOutcome(Run(events[..n]), events[n]);
    ResponsesAfter(events[..n]);
    ClosesIsSettles(events);
  }

  lemma ClosesIsSettles<B(!new)>(events: seq<Event<B>>)
    requires events != []
    ensures Closes(Run(events[..|events| - 1]), events[|events| - 1]) <==> Settles(events, |events| - 1)
  {
    var n := |events| - 1;
    TimerAfter(events[..n]);
    assert forall j | 0 <= j < n :: events[..n][j] == events[j];
  }

  /** A call is pending, and its stream open, exactly as long as no settling event has come. */
  lemma {:induction false} PendingExactly<B(!new)>(events: seq<Event<B>>)
    ensures Run(events).promise.Pending? <==> forall k | 0 <= k < |events| :: !Settles(events, k)
    ensures Run(events).streamEnds == 0 <==> Run(events).promise.Pending?
  {
    if events != [] {
      var n := |events| - 1;
      PendingExactly(events[..n]);
      LastEvent(events);
      forall k | 0 <= k < n ensures Settles(events[..n], k) <==> Settles(events, k) {
        SettlesInPrefix(events, n, k);
      }
    }
  }

  /** How many of the events settle or would settle, and how many are ends. */
  function Closings<B(!new)>(events: seq<Event<B>>): nat {
    if events == [] then 0
    else Closings(events[..|events| - 1]) + if Settles(events, |events| - 1) then 1 else 0
  }

  function EndsAmong<B>(events: seq<Event<B>>): nat {
    if events == [] then 0 else EndsAmong(events[..|events| - 1]) + if events[|events| - 1].End? then 1 else 0
  }

  /** Every settling event ends the stream once, and every end event cancels it once. */
  lemma {:induction false} StreamClosedExactly<B(!new)>(events: seq<Event<B>>)
    ensures Run(events).streamEnds == Closings(events)
    ensures Run(events).streamCancels == EndsAmong(events)
  {
    if events != [] {
      StreamClosedExactly(events[..|events| - 1]);
      LastEvent(events);
    }
  }

  /** The promise is that of the first settling event, however many follow. */
  lemma {:induction false} SettledByFirst<B(!new)>(events: seq<Event<B>>, k: nat)
    requires FirstSettles(events, k)
    ensures Run(events).promise == Outcome(events[k], Blocks(events[..k]))
  {
    var n := |events| - 1;
    LastEvent(events);
    if k == n {
      PendingBefore(events, n);
    } else {
      forall j | 0 <= j < n ensures Settles(events[..n], j) <==> Settles(events, j) {
        SettlesInPrefix(events, n, j);
      }
      SettledByFirst(events[..n], k);
      assert events[..n][..k] == events[..k];
    }
  }

  lemma PendingBefore<B(!new)>(events: seq<Event<B>>, k: nat)
    requires k <= |events| && forall j | 0 <= j < k :: !Settles(events, j)
    ensures Run(events[..k]).promise == Pending
  {
    PendingExactly(events[..k]);
    forall j | 0 <= j < k ensures !Settles(events[..k], j) {
      SettlesInPrefix(events, k, j);
    }
  }

  lemma FirstOf<B(!new)>(events: seq<Event<B>>, k: nat) returns (first: nat)
    requires k < |events| && Settles(events, k)
    ensures FirstSettles(events, first) && first <= k
  {
    first := 0;
    while !Settles(events, first)
      invariant first <= k
      invariant forall j | 0 <= j < first :: !Settles(events, j)
      decreases k - first
    {
      first := first + 1;
    }
  }

  /** A status response that says success, by name or by number. */
  predicate IsSuccessStatus<B>(e: Event<B>) {
    e == Data(StatusResponse(Named("SUCCESS"))) || e == Data(StatusResponse(Numbered(200)))
  }

  /**
   For every interleaving: the promise resolves with a value iff the first settling event is a
   SUCCESS status and the value is the blocks received before it, in order.
   */
  lemma ResolvesExactly<B(!new)>(events: seq<Event<B>>, value: seq<B>)
    ensures Run(events).promise == Resolved(value)
            <==> exists k: nat ::
                   && FirstSettles(events, k)
                   && IsSuccessStatus(events[k])
                   && value == Blocks(events[..k])
  {
    if Run(events).promise == Resolved(value) {
      PendingExactly(events);
      var j: nat :| j < |events| && Settles(events, j);
      var k := FirstOf(events, j);
      SettledByFirst(events, k);
    }
    if k: nat :| FirstSettles(events, k)
                 && IsSuccessStatus(events[k])
                 && value == Blocks(events[..k])
    {
      SettledByFirst(events, k);
    }
  }

  lemma ResolvedIff<B(!new)>(events: seq<Event<B>>)
    ensures Run(events).promise.Resolved? <==> exists k: nat :: FirstSettles(events, k) && IsSuccessStatus(events[k])
  {
    if Run(events).promise.Resolved? {
      ResolvesExactly(events, Run(events).promise.blocks);
    }
    if k: nat :| FirstSettles(events, k) && IsSuccessStatus(events[k]) {
      ResolvesExactly(events, Blocks(events[..k]));
    }
  }

  /** What a settling event other than a success rejects with, case by case. */
  predicate RejectsWith<B>(e: Event<B>, f: Failure) {
    match e
    case Data(StatusResponse(Named(name))) => name != "SUCCESS" && f == InvalidStatus(Named(name))
    case Data(StatusResponse(Numbered(code))) => code != 200 && f == InvalidStatus(Numbered(code))
    case Data(OtherType) => f == SystemError
    case StreamError(code, message) =>
      f == (if code == 14 then StreamFailed("SERVICE_UNAVAILABLE", Some(message)) else StreamFailed(message, None))
    case Timeout => f == TimedOut("REQUEST_TIMEOUT")
    case _ => false
  }

  /** For every interleaving: it rejects iff the first settling event is no success, and with that event's failure. */
  lemma RejectsExactly<B(!new)>(events: seq<Event<B>>, f: Failure)
    ensures Run(events).promise == Rejected(f)
            <==> exists k: nat :: FirstSettles(events, k) && RejectsWith(events[k], f)
  {
    if Run(events).promise == Rejected(f) {
      PendingExactly(events);
      var j: nat :| j < |events| && Settles(events, j);
      var k := FirstOf(events, j);
      SettledByFirst(events, k);
      assert RejectsWith(events[k], f);
    }
    if k: nat :| FirstSettles(events, k) && RejectsWith(events[k], f) {
      SettledByFirst(events, k);
    }
  }

  lemma RejectedIff<B(!new)>(events: seq<Event<B>>)
    ensures forall f :: Run(events).promise == Rejected(f)
                        <==> exists k: nat :: FirstSettles(events, k) && RejectsWith(events[k], f)
  {
    forall f ensures Run(events).promise == Rejected(f)
                     <==> exists k: nat :: FirstSettles(events, k) && RejectsWith(events[k], f)
    {
      RejectsExactly(events, f);
    }
  }

  /** A settled promise never changes again, and the stream has been ended by then. */
  lemma {:induction false} SettledStays<B(!new)>(events: seq<Event<B>>, more: seq<Event<B>>)
    requires !Run(events).promise.Pending?
    ensures Run(events + more).promise == Run(events).promise
    ensures Run(events).streamEnds > 0
    decreases |more|
  {
    PendingExactly(events);
    if more == [] {
      assert events + more == events;
    } else {
      var n := |more| - 1;
      SettledStays(events, more[..n]);
      assert (events + more)[..|events + more| - 1] == events + more[..n];
    }
  }

  lemma {:induction false} BlocksAppend<B>(a: seq<Event<B>>, b: seq<Event<B>>)
    ensures Blocks(a + b) == Blocks(a) + Blocks(b)
    decreases |b|
  {
    if b == [] {
      assert a + b == a;
    } else {
      BlocksAppend(a, b[..|b| - 1]);
      assert (a + b)[..|a + b| - 1] == a + b[..|b| - 1];
    }
  }

  /**
   The promise shares its array with the handlers: when event `k` resolves it, with the blocks
   received until then, what is read from the array later is still that value exactly when no block
   has arrived after event `k`.
   */
  lemma SharedArrayExact<B(!new)>(events: seq<Event<B>>, k: nat)
    requires FirstSettles(events, k) && IsSuccessStatus(events[k])
    ensures Run(events).promise == Resolved(Blocks(events[..k]))
    ensures Run(events).responses == Blocks(events[..k]) <==> Blocks(events[k + 1..]) == []
  {
    SettledByFirst(events, k);
    ResponsesAfter(events);
    assert events[..k + 1][..k] == events[..k];
    assert Blocks(events[..k + 1]) == Blocks(events[..k]);
    BlocksAppend(events[..k + 1], events[k + 1..]);
    assert events[..k + 1] + events[k + 1..] == events;
  }

  /** A success by name, after one block. */
  lemma NamedSuccess<B(!new)>(block: B)
    ensures Run([Data(FullBlock(block)), Data(StatusResponse(Named("SUCCESS")))]).promise == Resolved([block])
  {
    var a: seq<Event<B>> := [Data(FullBlock(block))];
    var ab: seq<Event<B>> := [Data(FullBlock(block)), Data(StatusResponse(Named("SUCCESS")))];
    assert a[..0] == [] && ab[..1] == a;
    assert Run(a).responses == [block];
  }

  /** One block after a success is enough: the promise resolved with nothing, and its array holds the block. */
  lemma LateBlockShows<B(!new)>(block: B)
    ensures var s := Run([Data(StatusResponse(Numbered(200))), Data(FullBlock(block))]);
            s.promise == Resolved([]) && s.responses == [block]
  {
    var success: seq<Event<B>> := [Data(StatusResponse(Numbered(200)))];
    var both: seq<Event<B>> := [Data(StatusResponse(Numbered(200))), Data(FullBlock(block))];
    assert success[..0] == [] && both[..1] == success;
  }

  /** An event that settles whatever the timer does: a status, an unknown type or an error. */
  predicate SettlesAlways<B>(e: Event<B>) { (e.Data? && !e.response.FullBlock?) || e.StreamError? }

  /**
   After an `end` no timeout settles a call any more: one that is pending then stays pending exactly
   as long as no status, unknown type or error comes.
   */
  lemma {:induction false} EndDisarmsTimeout<B(!new)>(events: seq<Event<B>>, e: nat, more: seq<Event<B>>)
    requires e < |events| && events[e].End? && Run(events).promise.Pending?
    ensures Run(events + more).promise.Pending? <==> forall k | 0 <= k < |more| :: !SettlesAlways(more[k])
    decreases |more|
  {
    if more == [] {
      assert events + more == events;
    } else {
      var n := |more| - 1;
      var before := events + more[..n];
      EndDisarmsTimeout(events, e, more[..n]);
      assert (events + more)[..|events + more| - 1] == before;
      TimerAfter(before);
      assert before[e].End?;
      StepOutcome(Run(before), more[n]);
    }
  }

  /** So a stream that ends early leaves its caller waiting, although a timeout was set. */
  lemma EndThenTimeout<B(!new)>()
    ensures Run<B>([End, Timeout]).promise.Pending?
  {
  }

  /** A corollary: an orderer that streams one block and then reports success resolves with just that block. */
  lemma OneBlockAnswer<B(!new)>(block: B, more: seq<Event<B>>)
    ensures Run([Data(FullBlock(block)), Data(StatusResponse(Numbered(200)))] + more).promise == Resolved([block])
  {
    var a: seq<Event<B>> := [Data(FullBlock(block))];
    var ab: seq<Event<B>> := [Data(FullBlock(block)), Data(StatusResponse(Numbered(200)))];
    assert a[..0] == [] && ab[..1] == a;
    assert Run(a).responses == [block];
    SettledStays(ab, more);
  }
}
