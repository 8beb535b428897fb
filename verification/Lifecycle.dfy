/** The proposal object of the chaincode lifecycle: its persistent acceptance handler over many calls. */
module Lifecycle {
  import opened Text
  import opened ResultInterceptors

  // ----- Specification: one call

  /** A lifecycle call. Empty names and package ids are absent ones. */
  datatype Call =
    | Install(readable: bool, packageId: string)
    | QueryInstalled
    | Approve(name: string, sequence: nat)
    | CheckReadiness
    | CommitDefinition
    | QueryDefinition(name: string)

  /** What the network gives for a call; `decodes` tells whether the payloads decode afterwards. */
  datatype Reply = Unreachable | Reply(errors: seq<string>, answers: seq<Answer>, decodes: bool)

  /** `Done` carries the flag a call may set: installed, noChange or notFound. */
  datatype CallResult = FileUnreadable | SendRejected | SystemErr | EndorseErr | DecodeErr | Done(flag: bool)

  /** Whether a call assigns the handler before it sends. */
  predicate SetsHandler(c: Call) {
    match c
    case Install(readable, _) => readable
    case Approve(_, _) => true
    case QueryDefinition(_) => true
    case _ => false
  }

  /** The handler a call assigns. */
  function AssignedHandler(c: Call): Handler
    requires SetsHandler(c)
  {
    match c
    case Install(_, packageId) => SkipIfInstalled(packageId)
    case Approve(name, sequence) => SkipIfNoChange(name, sequence)
    case QueryDefinition(name) => NoDefinitionHandler(name)
  }

  /** The handler that judges the answers to a call. */
  function JudgingHandler(current: Handler, c: Call): Handler {
    if SetsHandler(c) then AssignedHandler(c) else current
  }

  predicate NeedsDecoding(c: Call) { !c.Approve? && !c.CommitDefinition? }

  /** The flag of a call, from all of its answers; it holds when there are none. */
  predicate Flag(c: Call, answers: seq<Answer>) {
    match c
    case Install(_, packageId) => forall i | 0 <= i < |answers| :: HasInstalled(answers[i], packageId)
    case Approve(name, sequence) => forall i | 0 <= i < |answers| :: HasNoChange(answers[i], name, sequence)
    case QueryDefinition(name) => forall i | 0 <= i < |answers| :: HasNoDefinition(answers[i], name)
    case _ => false
  }

  function ResultOf(current: Handler, c: Call, reply: Reply): CallResult {
    if c.Install? && !c.readable then FileUnreadable
    else
      match reply
      case Unreachable => SendRejected
      case Reply(errors, answers, decodes) =>
        if errors != [] then SystemErr
        else if !Accepts(JudgingHandler(current, c), errors, answers) then EndorseErr
        else if NeedsDecoding(c) && !decodes then DecodeErr
        else Done(Flag(c, answers))
  }

  /** The handler in force after a call: a completed install puts `EndorseALL` back. */
  function HandlerAfter(current: Handler, c: Call, reply: Reply): Handler {
    if c.Install? && ResultOf(current, c, reply).Done? then EndorseAll else JudgingHandler(current, c)
  }

  // ----- Specification: whole runs

  datatype Exchange = Exchange(call: Call, reply: Reply)

  /** The handler after a run on a fresh object. */
  function HandlerAfterRun(run: seq<Exchange>): Handler {
    if run == [] then EndorseAll
    else
      var last := run[|run| - 1];
      HandlerAfter(HandlerAfterRun(run[..|run| - 1]), last.call, last.reply)
  }

  /** Exchange `k` is the last of a run that assigns the handler. */
  predicate LastToSet(run: seq<Exchange>, k: nat) {
    && k < |run|
    && SetsHandler(run[k].call)
    && forall j | k < j < |run| :: !SetsHandler(run[j].call)
  }

  predicate NobodySets(run: seq<Exchange>) { forall j | 0 <= j < |run| :: !SetsHandler(run[j].call) }

  /** Every other answer than a 200 is of the kind the handler lets pass. */
  predicate AllPass(h: Handler, answers: seq<Answer>) {
    forall i | 0 <= i < |answers| :: answers[i].status == 200 || Exempts(h, answers[i])
  }

  /** The handler that judges each call, written out; the three calls at the end leave it as it is. */
  lemma JudgesExactly(current: Handler, packageId: string, name: string, sequence: nat)
    ensures JudgingHandler(current, Install(true, packageId)) == SkipIfInstalled(packageId)
    ensures JudgingHandler(current, Approve(name, sequence)) == SkipIfNoChange(name, sequence)
    ensures JudgingHandler(current, QueryDefinition(name))
            == if name == "" then EndorseAll else SkipIfNoDefinition(name)
    ensures JudgingHandler(current, Install(false, packageId)) == current
    ensures forall c | c in {QueryInstalled, CheckReadiness, CommitDefinition} :: JudgingHandler(current, c) == current
  {
  }

  /** The flag of each call; those that have none never set it. */
  lemma FlagExactly(c: Call, answers: seq<Answer>)
    ensures c.Install? ==> (Flag(c, answers) <==> forall a | a in answers :: HasInstalled(a, c.packageId))
    ensures c.Approve? ==> (Flag(c, answers) <==> forall a | a in answers :: HasNoChange(a, c.name, c.sequence))
    ensures c.QueryDefinition? ==> (Flag(c, answers) <==> forall a | a in answers :: HasNoDefinition(a, c.name))
    ensures c.QueryInstalled? || c.CheckReadiness? || c.CommitDefinition? ==> !Flag(c, answers)
  {
    assert forall i | 0 <= i < |answers| :: answers[i] in answers;
  }

  /** All the results of a call, in the order in which they are decided. */
  lemma ResultExactly(current: Handler, c: Call, reply: Reply)
    ensures var r := ResultOf(current, c, reply); var h := JudgingHandler(current, c);
            var sent := !c.Install? || c.readable;
            var passed := reply.Reply? && reply.errors == [] && AllPass(h, reply.answers);
            var decoded := reply.Reply? && (c.Approve? || c.CommitDefinition? || reply.decodes);
            && (r == FileUnreadable <==> !sent)
            && (r == SendRejected <==> sent && reply == Unreachable)
            && (r == SystemErr <==> sent && reply.Reply? && reply.errors != [])
            && (r == EndorseErr <==> sent && reply.Reply? && reply.errors == [] && !passed)
            && (r == DecodeErr <==> sent && passed && !decoded)
            && (r.Done? <==> sent && passed && decoded)
            && (r.Done? ==> (r.flag <==> Flag(c, reply.answers)))
  {
    if reply.Reply? {
      PassedAnswers(JudgingHandler(current, c), reply.answers);
    }
  }

  lemma PassedAnswers(h: Handler, answers: seq<Answer>)
    ensures Accepts(h, [], answers) <==> AllPass(h, answers)
  {
    assert forall i | 0 <= i < |answers| ::
        IsError(h, answers[i]) <==> !(answers[i].status == 200 || Exempts(h, answers[i]));
  }

  /** The handler a call leaves behind, written out; none when it leaves the one before. */
  function LeftBehind(e: Exchange): Option<Handler> {
    match e.call
    case Install(readable, packageId) =>
      if !readable then None
      else if e.reply.Reply? && e.reply.decodes && e.reply.errors == []
              && AllPass(SkipIfInstalled(packageId), e.reply.answers)
      then Some(EndorseAll)
      else Some(SkipIfInstalled(packageId))
    case Approve(name, sequence) => Some(SkipIfNoChange(name, sequence))
    case QueryDefinition(name) => Some(if name == "" then EndorseAll else SkipIfNoDefinition(name))
    case QueryInstalled => None
    case CheckReadiness => None
    case CommitDefinition => None
  }

  /** What one exchange makes of the handler. */
  lemma AfterExchange(current: Handler, e: Exchange)
    ensures HandlerAfter(current, e.call, e.reply)
            == if LeftBehind(e).Some? then LeftBehind(e).value else current
    ensures SetsHandler(e.call) <==> LeftBehind(e).Some?
  {
    ResultExactly(current, e.call, e.reply);
  }

  lemma LastOfFront(run: seq<Exchange>, k: nat)
    requires LastToSet(run, k) && k < |run| - 1
    ensures LastToSet(run[..|run| - 1], k) && !SetsHandler(run[|run| - 1].call)
  {
    assert forall j | 0 <= j < |run| - 1 :: run[..|run| - 1][j] == run[j];
  }

  /**
   The handler in force after any run is the one the last assigning call left behind: the one it
   set, or `EndorseALL` if it was an install that completed.
   */
  lemma {:induction false} HandlerInForce(run: seq<Exchange>, k: nat)
    requires LastToSet(run, k)
    ensures LeftBehind(run[k]) == Some(HandlerAfterRun(run))
  {
    var n := |run| - 1;
    AfterExchange(HandlerAfterRun(run[..n]), run[n]);
    if k < n {
      LastOfFront(run, k);
      HandlerInForce(run[..n], k);
    }
  }

  /** It is `EndorseALL` as long as no call has assigned one. */
  lemma {:induction false} HandlerOfFreshObject(run: seq<Exchange>)
    requires NobodySets(run)
    ensures HandlerAfterRun(run) == EndorseAll
  {
    if run != [] {
      var n := |run| - 1;
      assert forall j | 0 <= j < n :: run[..n][j] == run[j];
      HandlerOfFreshObject(run[..n]);
      AfterExchange(EndorseAll, run[n]);
    }
  }

  predicate AllOk(answers: seq<Answer>) { forall i | 0 <= i < |answers| :: answers[i].status == 200 }

  /**
   Committing a definition judges with whatever handler the calls before left behind. That every
   accepted reply consists of 200 answers is guaranteed exactly when that handler is `EndorseALL`.
   */
  lemma CommitNeedsCleanHandler(run: seq<Exchange>)
    ensures (forall reply: Reply ::
               ResultOf(HandlerAfterRun(run), CommitDefinition, reply).Done? ==> AllOk(reply.answers))
            <==> HandlerAfterRun(run) == EndorseAll
  {
    var h := HandlerAfterRun(run);
    if h == EndorseAll {
      forall reply: Reply | ResultOf(h, CommitDefinition, reply).Done? ensures AllOk(reply.answers) {
        assert forall i | 0 <= i < |reply.answers| :: !IsError(h, reply.answers[i]);
      }
    } else {
      var a := EveryFilterExempts(h);
      var reply := Reply([], [a], true);
      assert Accepts(h, reply.errors, reply.answers);
      assert ResultOf(h, CommitDefinition, reply).Done?;
      assert reply.answers[0] == a;
    }
  }

  /** For instance, querying a definition leaves a handler that lets a later commit of it pass unendorsed. */
  lemma QueryThenCommit(name: string, queried: Reply)
    requires name != ""
    ensures var run := [Exchange(QueryDefinition(name), queried)];
            var unendorsed := Reply([], [Answer(404, "namespace " + name + " is not defined", Some([]))], true);
            ResultOf(HandlerAfterRun(run), CommitDefinition, unendorsed).Done?
  {
    var run := [Exchange(QueryDefinition(name), queried)];
    HandlerInForce(run, 0);
  }

  /** A done approve that is no "no change" got at least one answer, and every answer is a 200 or "no change". */
  lemma ApprovedMeans(current: Handler, name: string, sequence: nat, reply: Reply)
    requires ResultOf(current, Approve(name, sequence), reply) == Done(false)
    ensures reply.answers != []
    ensures forall i | 0 <= i < |reply.answers| ::
              reply.answers[i].status == 200 || HasNoChange(reply.answers[i], name, sequence)
    ensures exists i :: 0 <= i < |reply.answers| && reply.answers[i].status == 200
  {
    assert forall i | 0 <= i < |reply.answers| :: !IsError(SkipIfNoChange(name, sequence), reply.answers[i]);
    var i :| 0 <= i < |reply.answers| && !HasNoChange(reply.answers[i], name, sequence);
    assert reply.answers[i].status == 200;
  }

  // ----- The object

  /** `super.send`'s result: transport errors, the entries with their answers, and the flag calls may set. */
  class ProposalResult {
    const errors: seq<string>
    const responses: seq<Entry>
    var flag: bool

    constructor (errors: seq<string>, responses: seq<Entry>)
      ensures this.errors == errors && this.responses == responses && !flag
    {
      this.errors := errors;
      this.responses := responses;
      flag := false;
    }

    ghost function Objects(): set<object> { {this as object} + set e | e in responses :: e.response as object }
  }

  datatype Network = Down | Up(result: ProposalResult, decodes: bool)

  ghost function Touched(net: Network): set<object> { if net.Up? then net.result.Objects() else {} }

  function Seen(net: Network): Reply
    reads if net.Up? then set e | e in net.result.responses :: e.response else {}
  {
    match net
    case Down => Unreachable
    case Up(result, decodes) => Reply(result.errors, Values(result.responses), decodes)
  }

  /** `sent` when `send` returns normally, else the result of the call that sent. */
  datatype SendOutcome = Sent | Thrown(why: CallResult)

  class LifecycleProposal {
    var assertProposalResult: Handler
    /** Whether `assertCommitResult` is `CommitSuccess`, or null. */
    var assertsCommit: bool
    /** The calls made on the object so far, with their replies. */
    ghost var run: seq<Exchange>

    /** After any run of calls the object has the handler of that run. */
    ghost predicate Valid()
      reads this
    {
      assertProposalResult == HandlerAfterRun(run)
    }

    /** It is the one the last assigning call left behind, or `EndorseALL` as long as there was none. */
    lemma HandlerOfObject()
      requires Valid()
      ensures forall k: nat | LastToSet(run, k) :: LeftBehind(run[k]) == Some(assertProposalResult)
      ensures NobodySets(run) ==> assertProposalResult == EndorseAll
    {
      forall k: nat | LastToSet(run, k) ensures LeftBehind(run[k]) == Some(assertProposalResult) {
        HandlerInForce(run, k);
      }
      if NobodySets(run) {
        HandlerOfFreshObject(run);
      }
    }

    constructor ()
      ensures Valid() && run == [] && assertsCommit
    {
      assertProposalResult := EndorseAll;
      assertsCommit := true;
      run := [];
      new;
      SetResultHandler(None);
    }

    ghost method Record(c: Call, reply: Reply)
      modifies `run
      ensures run == old(run) + [Exchange(c, reply)]
      ensures HandlerAfterRun(run) == HandlerAfter(HandlerAfterRun(old(run)), c, reply)
    {
      run := run + [Exchange(c, reply)];
      assert run[..|run| - 1] == old(run);
    }

    /** The `resultHandler` setter: null stands for `EndorseALL`. */
    method SetResultHandler(handler: Option<Handler>)
      modifies `assertProposalResult
      ensures assertProposalResult == match handler case None => EndorseAll case Some(h) => h
    {
      if handler.None? {
        assertProposalResult := EndorseAll;
      } else {
        assertProposalResult := handler.value;
      }
    }

    method SetCommitAssert(on: bool)
      modifies `assertsCommit
      ensures assertsCommit == on
    {
      assertsCommit := on;
    }

    /**
     `send` returns normally iff the network answers, without transport errors, and the handler
     in force exempts every answer that is not a 200; then no answer has been modified.
     */
    method Send(net: Network) returns (s: SendOutcome)
      requires this !in Touched(net)
      modifies if net.Up? then set e | e in net.result.responses :: e.response else {}
      ensures s.Sent? <==> net.Up? && Accepts(assertProposalResult, net.result.errors, old(Seen(net)).answers)
      ensures s.Sent? ==> Seen(net) == old(Seen(net))
      ensures s.Thrown? ==>
                s.why == (if net.Down? then SendRejected else if net.result.errors != [] then SystemErr else EndorseErr)
    {
      if net.Down? {
        return Thrown(SendRejected);
      }
      var check := CheckEndorsements(assertProposalResult, net.result.errors, net.result.responses);
      match check {
        case Passed =>
          UnchangedValues(net.result.responses);
          return Sent;
        case SystemErrorThrown(_) => return Thrown(SystemErr);
        case EndorseErrorThrown(_) => return Thrown(EndorseErr);
      }
    }

    method InstallChaincode(readable: bool, packageId: string, net: Network) returns (r: CallResult)
      requires Valid() && this !in Touched(net) && (net.Up? ==> !net.result.flag)
      modifies this`assertProposalResult, this`run, Touched(net)
      ensures r == ResultOf(old(assertProposalResult), Install(readable, packageId), old(Seen(net)))
      ensures Valid() && run == old(run) + [Exchange(Install(readable, packageId), old(Seen(net)))]
      ensures r.Done? ==> net.result.flag == r.flag && Seen(net) == old(Seen(net))
    {
      Record(Install(readable, packageId), Seen(net));
      if !readable {
        return FileUnreadable;
      }
      SetResultHandler(Some(SkipIfInstalled(packageId)));
      var sent := Send(net);
      if sent.Thrown? {
        return sent.why;
      }
      var every := EveryAnswer(Install(readable, packageId), net.result.responses);
      if every {
        net.result.flag := true;
      }
      if !net.decodes {
        return DecodeErr;
      }
      SetResultHandler(None);
      return Done(every);
    }

    method ApproveForMyOrg(name: string, sequence: nat, net: Network) returns (r: CallResult)
      requires Valid() && this !in Touched(net) && (net.Up? ==> !net.result.flag)
      modifies this`assertProposalResult, this`run, Touched(net)
      ensures r == ResultOf(old(assertProposalResult), Approve(name, sequence), old(Seen(net)))
      ensures Valid() && run == old(run) + [Exchange(Approve(name, sequence), old(Seen(net)))]
      ensures r.Done? ==> net.result.flag == r.flag && Seen(net) == old(Seen(net))
    {
      Record(Approve(name, sequence), Seen(net));
      SetResultHandler(Some(SkipIfNoChange(name, sequence)));
      var sent := Send(net);
      if sent.Thrown? {
        return sent.why;
      }
      var every := EveryAnswer(Approve(name, sequence), net.result.responses);
      if every {
        net.result.flag := true;
      }
      return Done(every);
    }

    method QueryChaincodeDefinition(name: string, net: Network) returns (r: CallResult)
      requires Valid() && this !in Touched(net) && (net.Up? ==> !net.result.flag)
      modifies this`assertProposalResult, this`run, Touched(net)
      ensures r == ResultOf(old(assertProposalResult), QueryDefinition(name), old(Seen(net)))
      ensures Valid() && run == old(run) + [Exchange(QueryDefinition(name), old(Seen(net)))]
      ensures r.Done? ==> net.result.flag == r.flag && Seen(net) == old(Seen(net))
    {
      Record(QueryDefinition(name), Seen(net));
      SetResultHandler(Some(NoDefinitionHandler(name)));
      var sent := Send(net);
      if sent.Thrown? {
        return sent.why;
      }
      var every := EveryAnswer(QueryDefinition(name), net.result.responses);
      if every {
        net.result.flag := true;
      }
      if !net.decodes {
        return DecodeErr;
      }
      return Done(every);
    }

    /** The calls that leave the handler alone: both plain queries and the commit of a definition. */
    method PlainCall(c: Call, net: Network) returns (r: CallResult)
      requires c.QueryInstalled? || c.CheckReadiness? || c.CommitDefinition?
      requires Valid() && this !in Touched(net)
      modifies this`run, if net.Up? then set e | e in net.result.responses :: e.response else {}
      ensures r == ResultOf(assertProposalResult, c, old(Seen(net)))
      ensures Valid() && run == old(run) + [Exchange(c, old(Seen(net)))]
      ensures r.Done? ==> Seen(net) == old(Seen(net))
    {
      Record(c, Seen(net));
      var sent := Send(net);
      if sent.Thrown? {
        return sent.why;
      }
      if !c.CommitDefinition? && !net.decodes {
        return DecodeErr;
      }
      return Done(false);
    }
  }

  /** `responses.every(...)` with the condition of the call's flag. */
  method EveryAnswer(c: Call, responses: seq<Entry>) returns (every: bool)
    requires c.Install? || c.Approve? || c.QueryDefinition?
    ensures every == Flag(c, Values(responses))
  {
    for i := 0 to |responses|
      invariant Flag(c, Values(responses)[..i])
    {
      var a := responses[i].response.Value();
      assert a == Values(responses)[i];
      if !Flag(c, [a]) {
        FlagFails(c, Values(responses), i);
        return false;
      }
      FlagExtends(c, Values(responses), i);
    }
    assert Values(responses)[..|responses|] == Values(responses);
    return true;
  }

  lemma FlagFails(c: Call, answers: seq<Answer>, i: nat)
    requires c.Install? || c.Approve? || c.QueryDefinition?
    requires i < |answers| && !Flag(c, [answers[i]])
    ensures !Flag(c, answers)
  {
  }

  lemma FlagExtends(c: Call, answers: seq<Answer>, i: nat)
    requires c.Install? || c.Approve? || c.QueryDefinition?
    requires i < |answers| && Flag(c, answers[..i]) && Flag(c, [answers[i]])
    ensures Flag(c, answers[..i + 1])
  {
    assert [answers[i]][0] == answers[i];
    assert forall j | 0 <= j < i :: answers[..i + 1][j] == answers[..i][j];
  }

  /** Answers whose payloads are untouched have unchanged values. */
  twostate lemma UnchangedValues(responses: seq<Entry>)
    requires forall e | e in responses :: e.response.payload == old(e.response.payload)
    ensures Values(responses) == old(Values(responses))
  {
    forall i | 0 <= i < |responses| ensures Values(responses)[i] == old(Values(responses))[i] {
      assert responses[i] in responses;
    }
  }
}
