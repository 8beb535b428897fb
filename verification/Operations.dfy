/** Endorse, commit and wait for finality: `Transaction.submit` and the lifecycle's approve and commit. */
module Operations {
  import opened Text
  import opened ResultInterceptors
  import opened Lifecycle
  import EventHub

  type TxEvents = seq<EventHub.HubEvent<EventHub.TxEvent>>

  /** What sending to the orderer gives. */
  datatype CommitOutcome = SendThrows | Answered(answer: CommitAnswer)

  predicate Leaderless(c: CommitOutcome) {
    c.Answered? && c.answer.status == "SERVICE_UNAVAILABLE" && c.answer.info == "no Raft leader"
  }

  predicate Succeeded(c: CommitOutcome) { c.Answered? && CommitSuccess(c.answer) }

  /** `Undefined` is a normal return without a result; `Unsettled` waits for more outcomes. */
  datatype Ending = Result | Undefined | Threw | Unsettled

  /** How the wait for finality ends. */
  function Finality(events: TxEvents): Ending {
    match EventHub.WaitForTx(events)
    case Pending => Unsettled
    case Resolved(_) => Result
    case Rejected(_) => Threw
  }

  predicate FirstEventValid(events: TxEvents) {
    events != [] && events[0].Arrived? && events[0].event.status == "VALID"
  }

  lemma FinalityExact(events: TxEvents)
    ensures Finality(events) == Result <==> FirstEventValid(events)
    ensures Finality(events) == Threw <==> events != [] && !FirstEventValid(events)
    ensures Finality(events) == Unsettled <==> events == []
  {
    EventHub.WaitForTxExactly(events);
  }

  // ----- Effects

  /** What an operation does to the outside, in order. */
  datatype Effect = Proposed | SentToOrderer(outcome: CommitOutcome) | Listened | Disconnected

  // ----- Transaction.submit

  class Transaction {
    const assertProposalResult: Handler
    const assertsCommit: bool

    constructor ()
      ensures assertProposalResult == EndorseAll && assertsCommit
    {
      assertProposalResult := EndorseAll;
      assertsCommit := true;
    }

    /**
     `submit` reaches the orderer iff there were no errors and every endorser answered 200. It
     returns its result iff, besides, the orderer answered SUCCESS with empty info and, when
     finality is asked for, the first event says VALID; it is unsettled iff it waits for that event,
     and throws in all other cases. An event hub it opened is closed again.
     */
    method Submit(net: Network, commit: CommitOutcome, finalityRequired: bool, events: TxEvents)
      returns (e: Ending, effects: seq<Effect>)
      requires assertProposalResult == EndorseAll && assertsCommit
      modifies Touched(net)
      ensures var accepted := net.Up? && net.result.errors == [] && AllOk(old(Seen(net)).answers);
              var committed := accepted && commit == Answered(CommitAnswer("SUCCESS", ""));
              && (e == Result <==> committed && (finalityRequired ==> FirstEventValid(events)))
              && (e == Unsettled <==> committed && finalityRequired && events == [])
              && (e == Threw <==> !committed || (finalityRequired && events != [] && !FirstEventValid(events)))
              && effects == (if !accepted then [Proposed]
                             else if !committed || !finalityRequired then [Proposed, SentToOrderer(commit)]
                             else if events == [] then [Proposed, SentToOrderer(commit), Listened]
                             else [Proposed, SentToOrderer(commit), Listened, Disconnected])
    {
      effects := [Proposed];
      FinalityExact(events);
      if net.Down? {
        return Threw, effects;
      }
      var check := CheckEndorsements(assertProposalResult, net.result.errors, net.result.responses);
      EndorseAllMeans(net.result.errors, old(Seen(net)).answers);
      if !check.Passed? {
        return Threw, effects;
      }
      effects := effects + [SentToOrderer(commit)];
      if commit.SendThrows? || (assertsCommit && !CommitSuccess(commit.answer)) {
        return Threw, effects;
      }
      if !finalityRequired {
        return Result, effects;
      }
      effects := effects + [Listened];
      e := Finality(events);
      if e != Unsettled {
        effects := effects + [Disconnected];
      }
    }
  }

  lemma EndorseAllMeans(errors: seq<string>, answers: seq<Answer>)
    ensures Accepts(EndorseAll, errors, answers) <==> errors == [] && AllOk(answers)
  {
    assert forall i | 0 <= i < |answers| :: IsError(EndorseAll, answers[i]) <==> answers[i].status != 200;
  }

  // ----- The commit loop of approve

  datatype LoopEnd = Committed | LoopThrows | Retrying

  datatype Loop = Loop(end: LoopEnd, sent: seq<Effect>)

  /** `_commit`: every "no Raft leader" answer is tried again, if waiting is asked for. */
  function CommitLoop(outcomes: seq<CommitOutcome>, wait: bool): Loop {
    if outcomes == [] then Loop(Retrying, [])
    else
      var here := SentToOrderer(outcomes[0]);
      if Leaderless(outcomes[0]) then
        if wait then
          var rest := CommitLoop(outcomes[1..], wait);
          Loop(rest.end, [here] + rest.sent)
        else Loop(LoopThrows, [here])
      else if Succeeded(outcomes[0]) then Loop(Committed, [here])
      else Loop(LoopThrows, [here])
  }

  /** The first `k` answers were "no Raft leader"; another try follows only if waiting was asked for. */
  predicate LeaderlessUntil(outcomes: seq<CommitOutcome>, wait: bool, k: nat) {
    && k <= |outcomes|
    && (k > 0 ==> wait)
    && forall j | 0 <= j < k :: outcomes[j] == Answered(CommitAnswer("SERVICE_UNAVAILABLE", "no Raft leader"))
  }

  /** Then the next one is a SUCCESS with empty info. */
  predicate CommitsAfter(outcomes: seq<CommitOutcome>, wait: bool, k: nat) {
    LeaderlessUntil(outcomes, wait, k) && k < |outcomes| && outcomes[k] == Answered(CommitAnswer("SUCCESS", ""))
  }

  /** Then the next one is something else, and not tried again. */
  predicate GivesUpAfter(outcomes: seq<CommitOutcome>, wait: bool, k: nat) {
    && LeaderlessUntil(outcomes, wait, k)
    && k < |outcomes|
    && outcomes[k] != Answered(CommitAnswer("SUCCESS", ""))
    && (wait ==> outcomes[k] != Answered(CommitAnswer("SERVICE_UNAVAILABLE", "no Raft leader")))
  }

  /** The first `k` outcomes as effects. */
  function SentEffects(outcomes: seq<CommitOutcome>, k: nat): seq<Effect>
    requires k <= |outcomes|
  {
    seq(k, j requires 0 <= j < k => SentToOrderer(outcomes[j]))
  }

  /**
   How the loop ends and what it has sent by then: it commits exactly after zero or more leaderless
   answers and one success, throws exactly after such answers and another one, and else is retrying.
   */
  lemma CommitLoopExact(outcomes: seq<CommitOutcome>, wait: bool)
    ensures CommitLoop(outcomes, wait).end == Committed <==> exists k: nat :: CommitsAfter(outcomes, wait, k)
    ensures CommitLoop(outcomes, wait).end == LoopThrows <==> exists k: nat :: GivesUpAfter(outcomes, wait, k)
    ensures CommitLoop(outcomes, wait).end == Retrying <==> LeaderlessUntil(outcomes, wait, |outcomes|)
    ensures forall k: nat | CommitsAfter(outcomes, wait, k) || GivesUpAfter(outcomes, wait, k) ::
              CommitLoop(outcomes, wait).sent == SentEffects(outcomes, k + 1)
    ensures LeaderlessUntil(outcomes, wait, |outcomes|) ==>
              CommitLoop(outcomes, wait).sent == SentEffects(outcomes, |outcomes|)
  {
    var n := LoopEndsAt(outcomes, wait);
    assert n < |outcomes| ==> CommitsAfter(outcomes, wait, n) || GivesUpAfter(outcomes, wait, n);
    forall k: nat | CommitsAfter(outcomes, wait, k) || GivesUpAfter(outcomes, wait, k) ensures k == n {
    }
  }

  lemma {:induction false} LoopEndsAt(outcomes: seq<CommitOutcome>, wait: bool) returns (k: nat)
    ensures LeaderlessUntil(outcomes, wait, k)
    ensures k < |outcomes| && wait ==> outcomes[k] != Answered(CommitAnswer("SERVICE_UNAVAILABLE", "no Raft leader"))
    ensures CommitLoop(outcomes, wait)
            == if k == |outcomes| then Loop(Retrying, SentEffects(outcomes, k))
               else if outcomes[k] == Answered(CommitAnswer("SUCCESS", ""))
               then Loop(Committed, SentEffects(outcomes, k + 1))
               else Loop(LoopThrows, SentEffects(outcomes, k + 1))
  {
    k := 0;
    if outcomes != [] {
      if wait && outcomes[0] == Answered(CommitAnswer("SERVICE_UNAVAILABLE", "no Raft leader")) {
        var rest := outcomes[1..];
        var i := LoopEndsAt(rest, wait);
        k := i + 1;
        assert forall j | 1 <= j < |outcomes| :: outcomes[j] == rest[j - 1];
        SentBehind(outcomes, i);
        if i < |rest| {
          SentBehind(outcomes, i + 1);
        }
      } else {
        assert SentEffects(outcomes, 1) == [SentToOrderer(outcomes[0])];
        CommitSuccessExactly(if outcomes[0].Answered? then outcomes[0].answer else CommitAnswer("", ""));
      }
    }
  }

  lemma SentBehind(outcomes: seq<CommitOutcome>, i: nat)
    requires outcomes != [] && i <= |outcomes| - 1
    ensures SentEffects(outcomes, i + 1) == [SentToOrderer(outcomes[0])] + SentEffects(outcomes[1..], i)
  {
  }

  // ----- Lifecycle operations on one object

  /** Specification of `approve`: how it ends, what it sends, and whether it got to committing. */
  function ApproveEnding(r: CallResult, outcomes: seq<CommitOutcome>, wait: bool, events: TxEvents): Ending {
    if !r.Done? then Threw
    else if r.flag then Undefined
    else
      match CommitLoop(outcomes, wait).end
      case Retrying => Unsettled
      case LoopThrows => Threw
      case Committed => Finality(events)
  }

  /** An event hub is opened for the wait, and closed again when the wait is over. */
  function FinalityEffects(events: TxEvents): seq<Effect> {
    if Finality(events) == Unsettled then [Listened] else [Listened, Disconnected]
  }

  /** Everything `approve` does to the outside. */
  function ApproveEffects(r: CallResult, outcomes: seq<CommitOutcome>, wait: bool, events: TxEvents): seq<Effect> {
    if r != Done(false) then [Proposed]
    else [Proposed] + CommitAndWaitEffects(outcomes, wait, events)
  }

  function CommitAndWaitEffects(outcomes: seq<CommitOutcome>, wait: bool, events: TxEvents): seq<Effect> {
    var loop := CommitLoop(outcomes, wait);
    if loop.end == Committed then loop.sent + FinalityEffects(events) else loop.sent
  }

  /** Specification of `commitChaincodeDefinition`, which checks the orderer's answer only when `asserts`. */
  function CommitEnding(r: CallResult, asserts: bool, outcome: CommitOutcome, events: TxEvents): Ending {
    if !r.Done? then Threw
    else if outcome.SendThrows? || (asserts && !CommitSuccess(outcome.answer)) then Threw
    else Finality(events)
  }

  /** How the calls end that only ask the endorsers; a set flag means there is nothing to return. */
  function QueryEnding(r: CallResult): Ending {
    if !r.Done? then Threw else if r.flag then Undefined else Result
  }

  /** Everything `commitChaincodeDefinition` does to the outside. */
  function CommitEffects(r: CallResult, asserts: bool, outcome: CommitOutcome, events: TxEvents): seq<Effect> {
    if !r.Done? then [Proposed] else [Proposed] + CommitOnceEffects(asserts, outcome, events)
  }

  function CommitOnceEffects(asserts: bool, outcome: CommitOutcome, events: TxEvents): seq<Effect> {
    if outcome.SendThrows? || (asserts && !CommitSuccess(outcome.answer)) then [SentToOrderer(outcome)]
    else [SentToOrderer(outcome)] + FinalityEffects(events)
  }

  lemma AfterProposed(before: seq<Effect>, more: seq<Effect>)
    ensures (before + [Proposed]) + more == before + ([Proposed] + more)
  {
  }

  class ChaincodeOperation {
    const proposal: LifecycleProposal
    var effects: seq<Effect>

    /** Handler and commit check are those of the run of operations on the object so far. */
    ghost predicate Valid()
      reads this, proposal
    {
      proposal.Valid() && proposal.assertsCommit == AssertsAfter(proposal.run)
    }

    /** The check of commit answers is on as long as no approve got to committing. */
    lemma CheckOfObject()
      requires Valid()
      ensures proposal.Valid()
      ensures proposal.assertsCommit <==> forall k: nat :: !ApprovingAt(proposal.run, k)
    {
      AssertsExactly(proposal.run);
    }

    constructor ()
      ensures Valid() && proposal.run == [] && effects == []
      ensures fresh(proposal)
    {
      proposal := new LifecycleProposal();
      effects := [];
    }

    method Log(e: Effect)
      modifies `effects
      ensures effects == old(effects) + [e]
    {
      effects := effects + [e];
    }

    /** `_commit`, which calls itself again after a leaderless answer. */
    method Commit(outcomes: seq<CommitOutcome>, waitForConsensus: bool) returns (end: LoopEnd)
      modifies `effects
      ensures end == CommitLoop(outcomes, waitForConsensus).end
      ensures effects == old(effects) + CommitLoop(outcomes, waitForConsensus).sent
      decreases |outcomes|
    {
      if outcomes == [] {
        assert effects + [] == effects;
        return Retrying;
      }
      Log(SentToOrderer(outcomes[0]));
      if outcomes[0].SendThrows? {
        return LoopThrows;
      }
      var commitResult := outcomes[0].answer;
      if commitResult.status == "SERVICE_UNAVAILABLE" && commitResult.info == "no Raft leader" {
        if waitForConsensus {
          ghost var before := old(effects);
          ghost var rest := CommitLoop(outcomes[1..], waitForConsensus).sent;
          assert before + ([SentToOrderer(outcomes[0])] + rest) == (before + [SentToOrderer(outcomes[0])]) + rest;
          end := Commit(outcomes[1..], waitForConsensus);
          return;
        }
        return LoopThrows;
      }
      if !CommitSuccess(commitResult) {
        return LoopThrows;
      }
      return Committed;
    }

    /** `waitForTx` between opening and closing the event hub. */
    method WaitForFinality(events: TxEvents) returns (e: Ending)
      modifies `effects
      ensures e == Finality(events) && effects == old(effects) + FinalityEffects(events)
    {
      Log(Listened);
      e := Finality(events);
      if e != Unsettled {
        Log(Disconnected);
      }
    }

    /**
     `approve`. Once it gets to committing, the proposal's own check of commit answers is off for
     good.
     */
    method Approve(name: string, sequence: nat, net: Network, outcomes: seq<CommitOutcome>, waitForConsensus: bool,
                   events: TxEvents)
      returns (r: CallResult, e: Ending)
      requires Valid() && {this as object, proposal} !! Touched(net) && (net.Up? ==> !net.result.flag)
      modifies this`effects, proposal, Touched(net)
      ensures r == ResultOf(old(proposal.assertProposalResult), Call.Approve(name, sequence), old(Seen(net)))
      ensures Valid()
      ensures proposal.run == old(proposal.run) + [Exchange(Call.Approve(name, sequence), old(Seen(net)))]
      ensures e == ApproveEnding(r, outcomes, waitForConsensus, events)
      ensures effects == old(effects) + ApproveEffects(r, outcomes, waitForConsensus, events)
    {
      Log(Proposed);
      r := ProposeApproval(name, sequence, net);
      if !r.Done? {
        return r, Threw;
      }
      if net.result.flag {
        return r, Undefined;
      }
      AfterProposed(old(effects), CommitAndWaitEffects(outcomes, waitForConsensus, events));
      e := CommitAndWait(outcomes, waitForConsensus, events);
    }

    /** What `approve` does to the proposal: the call, and switching the check off if it goes on to commit. */
    method ProposeApproval(name: string, sequence: nat, net: Network) returns (r: CallResult)
      requires Valid() && {this as object, proposal} !! Touched(net) && (net.Up? ==> !net.result.flag)
      modifies proposal, Touched(net)
      ensures r == ResultOf(old(proposal.assertProposalResult), Call.Approve(name, sequence), old(Seen(net)))
      ensures Valid()
      ensures proposal.run == old(proposal.run) + [Exchange(Call.Approve(name, sequence), old(Seen(net)))]
      ensures r.Done? ==> net.Up? && net.result.flag == r.flag
    {
      AssertsStep(proposal.run, Exchange(Call.Approve(name, sequence), Seen(net)));
      r := proposal.ApproveForMyOrg(name, sequence, net);
      if r.Done? && !net.result.flag {
        proposal.SetCommitAssert(false);
      }
    }

    /** What `approve` does after the endorsement. */
    method CommitAndWait(outcomes: seq<CommitOutcome>, waitForConsensus: bool, events: TxEvents) returns (e: Ending)
      modifies `effects
      ensures e == ApproveEnding(Done(false), outcomes, waitForConsensus, events)
      ensures effects == old(effects) + CommitAndWaitEffects(outcomes, waitForConsensus, events)
    {
      var end := Commit(outcomes, waitForConsensus);
      match end {
        case Retrying => return Unsettled;
        case LoopThrows => return Threw;
        case Committed => e := WaitForFinality(events);
      }
    }

    /** `install`, which gives no result if the package was installed everywhere before. */
    method Install(readable: bool, packageId: string, net: Network) returns (r: CallResult, e: Ending)
      requires Valid() && {this as object, proposal} !! Touched(net) && (net.Up? ==> !net.result.flag)
      modifies this`effects, proposal`assertProposalResult, proposal`run, Touched(net)
      ensures r == ResultOf(old(proposal.assertProposalResult), Call.Install(readable, packageId), old(Seen(net)))
      ensures Valid()
      ensures proposal.run == old(proposal.run) + [Exchange(Call.Install(readable, packageId), old(Seen(net)))]
      ensures e == QueryEnding(r) && effects == old(effects) + if readable then [Proposed] else []
    {
      if readable {
        Log(Proposed);
      }
      ghost var before := proposal.run;
      r := proposal.InstallChaincode(readable, packageId, net);
      AssertsStep(before, proposal.run[|before|]);
      if !r.Done? {
        return r, Threw;
      }
      if net.result.flag {
        return r, Undefined;
      }
      e := Result;
    }

    method CheckCommitReadiness(net: Network) returns (r: CallResult, e: Ending)
      requires Valid() && {this as object, proposal} !! Touched(net)
      modifies this`effects, proposal`run, Touched(net)
      ensures r == ResultOf(proposal.assertProposalResult, CheckReadiness, old(Seen(net)))
      ensures Valid() && proposal.run == old(proposal.run) + [Exchange(CheckReadiness, old(Seen(net)))]
      ensures e == QueryEnding(r) && effects == old(effects) + [Proposed]
    {
      Log(Proposed);
      ghost var before := proposal.run;
      r := proposal.PlainCall(CheckReadiness, net);
      AssertsStep(before, proposal.run[|before|]);
      e := if r.Done? then Result else Threw;
    }

    /** `queryChaincodeDefinition`, which gives no result if no peer has the definition. */
    method QueryChaincodeDefinition(name: string, net: Network) returns (r: CallResult, e: Ending)
      requires Valid() && {this as object, proposal} !! Touched(net) && (net.Up? ==> !net.result.flag)
      modifies this`effects, proposal`assertProposalResult, proposal`run, Touched(net)
      ensures r == ResultOf(old(proposal.assertProposalResult), QueryDefinition(name), old(Seen(net)))
      ensures Valid() && proposal.run == old(proposal.run) + [Exchange(QueryDefinition(name), old(Seen(net)))]
      ensures e == QueryEnding(r) && effects == old(effects) + [Proposed]
    {
      Log(Proposed);
      ghost var before := proposal.run;
      r := proposal.QueryChaincodeDefinition(name, net);
      AssertsStep(before, proposal.run[|before|]);
      if !r.Done? {
        return r, Threw;
      }
      if !net.result.flag {
        return r, Result;
      }
      e := Undefined;
    }

    /** `commitChaincodeDefinition` */
    method CommitChaincodeDefinition(net: Network, outcome: CommitOutcome, events: TxEvents)
      returns (r: CallResult, e: Ending)
      requires Valid() && {this as object, proposal} !! Touched(net)
      modifies this`effects, proposal`run, Touched(net)
      ensures r == ResultOf(proposal.assertProposalResult, CommitDefinition, old(Seen(net)))
      ensures Valid() && proposal.run == old(proposal.run) + [Exchange(CommitDefinition, old(Seen(net)))]
      ensures e == CommitEnding(r, AssertsAfter(old(proposal.run)), outcome, events)
      ensures effects == old(effects) + CommitEffects(r, AssertsAfter(old(proposal.run)), outcome, events)
    {
      Log(Proposed);
      ghost var before := proposal.run;
      r := proposal.PlainCall(CommitDefinition, net);
      AssertsStep(before, proposal.run[|before|]);
      if !r.Done? {
        return r, Threw;
      }
      AfterProposed(old(effects), CommitOnceEffects(proposal.assertsCommit, outcome, events));
      e := CommitOnce(proposal.assertsCommit, outcome, events);
    }

    /** One commit, whose answer is checked if `asserts`, and the wait for finality. */
    method CommitOnce(asserts: bool, outcome: CommitOutcome, events: TxEvents) returns (e: Ending)
      modifies `effects
      ensures e == CommitEnding(Done(false), asserts, outcome, events)
      ensures effects == old(effects) + CommitOnceEffects(asserts, outcome, events)
    {
      Log(SentToOrderer(outcome));
      if outcome.SendThrows? {
        return Threw;
      }
      if asserts && !CommitSuccess(outcome.answer) {
        return Threw;
      }
      e := WaitForFinality(events);
    }
  }

  // ----- Safety of approve

  /**
   `approve` returns a result exactly when the endorsers approved something new, then the orderer
   answered SUCCESS with empty info after zero or more "no Raft leader" retries, and then the first
   event said VALID. What it sent is those retries and that one commit.
   */
  lemma ApproveReturnsExactly(r: CallResult, outcomes: seq<CommitOutcome>, wait: bool, events: TxEvents)
    ensures ApproveEnding(r, outcomes, wait, events) == Result
            <==> r == Done(false) && (exists k: nat :: CommitsAfter(outcomes, wait, k)) && FirstEventValid(events)
    ensures forall k: nat | r == Done(false) && CommitsAfter(outcomes, wait, k) ::
              ApproveEffects(r, outcomes, wait, events)
              == [Proposed] + (SentEffects(outcomes, k + 1)
                               + if events == [] then [Listened] else [Listened, Disconnected])
  {
    CommitLoopExact(outcomes, wait);
    FinalityExact(events);
  }

  /**
   It throws exactly when proposing the approval fails, when an answer of the orderer is neither the
   success nor one that is tried again, or when the first event after the commit is not VALID.
   */
  lemma ApproveThrowsExactly(r: CallResult, outcomes: seq<CommitOutcome>, wait: bool, events: TxEvents)
    ensures ApproveEnding(r, outcomes, wait, events) == Threw
            <==> || !r.Done?
                 || (r == Done(false) && exists k: nat :: GivesUpAfter(outcomes, wait, k))
                 || (r == Done(false) && (exists k: nat :: CommitsAfter(outcomes, wait, k))
                     && events != [] && !FirstEventValid(events))
    ensures forall k: nat | r == Done(false) && GivesUpAfter(outcomes, wait, k) ::
              ApproveEffects(r, outcomes, wait, events) == [Proposed] + SentEffects(outcomes, k + 1)
    ensures !r.Done? ==> ApproveEffects(r, outcomes, wait, events) == [Proposed]
  {
    CommitLoopExact(outcomes, wait);
    FinalityExact(events);
  }

  /** It is unsettled exactly while every answer is "no Raft leader", or while the first event is awaited. */
  lemma ApproveWaitsExactly(r: CallResult, outcomes: seq<CommitOutcome>, wait: bool, events: TxEvents)
    ensures ApproveEnding(r, outcomes, wait, events) == Unsettled
            <==> || (r == Done(false) && LeaderlessUntil(outcomes, wait, |outcomes|))
                 || (r == Done(false) && (exists k: nat :: CommitsAfter(outcomes, wait, k)) && events == [])
    ensures r == Done(false) && LeaderlessUntil(outcomes, wait, |outcomes|) ==>
              ApproveEffects(r, outcomes, wait, events) == [Proposed] + SentEffects(outcomes, |outcomes|)
  {
    CommitLoopExact(outcomes, wait);
    FinalityExact(events);
  }

  /** `approve` skips committing exactly when every answer says "unchanged content", vacuously without answers. */
  lemma ApproveSkipsExactly(current: Handler, name: string, sequence: nat, reply: Reply,
                            outcomes: seq<CommitOutcome>, wait: bool, events: TxEvents)
    ensures var r := ResultOf(current, Call.Approve(name, sequence), reply);
            ApproveEnding(r, outcomes, wait, events) == Undefined
            <==> reply.Reply? && reply.errors == []
                 && forall i | 0 <= i < |reply.answers| :: HasNoChange(reply.answers[i], name, sequence)
    ensures var r := ResultOf(current, Call.Approve(name, sequence), reply);
            ApproveEnding(r, outcomes, wait, events) == Undefined ==>
              ApproveEffects(r, outcomes, wait, events) == [Proposed]
  {
    if reply.Reply? {
      NoChangeIsExempt(name, sequence, reply.answers);
    }
  }

  lemma NoChangeIsExempt(name: string, sequence: nat, answers: seq<Answer>)
    ensures (forall i | 0 <= i < |answers| :: HasNoChange(answers[i], name, sequence)) ==>
              Accepts(SkipIfNoChange(name, sequence), [], answers)
  {
  }

  // ----- Whether a commit is still checked, over whole runs

  /** The calls of a run that get to the commit phase of `approve`. */
  predicate Approving(current: Handler, x: Exchange) {
    x.call.Approve? && ResultOf(current, x.call, x.reply) == Done(false)
  }

  /** `assertsCommit` after a run of operations on a fresh object, each named by its lifecycle call. */
  function AssertsAfter(run: seq<Exchange>): bool {
    if run == [] then true
    else
      var front := run[..|run| - 1];
      AssertsAfter(front) && !Approving(HandlerAfterRun(front), run[|run| - 1])
  }

  lemma AssertsStep(run: seq<Exchange>, x: Exchange)
    ensures AssertsAfter(run + [x]) == (AssertsAfter(run) && !Approving(HandlerAfterRun(run), x))
  {
    assert (run + [x])[..|run + [x]| - 1] == run;
  }

  /** Exchange `k` is an approve that got to committing: accepted, and some answer is no "unchanged content". */
  predicate ApprovingAt(run: seq<Exchange>, k: nat) {
    && k < |run| && run[k].call.Approve? && run[k].reply.Reply? && run[k].reply.errors == []
    && AllPass(SkipIfNoChange(run[k].call.name, run[k].call.sequence), run[k].reply.answers)
    && exists i | 0 <= i < |run[k].reply.answers| ::
         !HasNoChange(run[k].reply.answers[i], run[k].call.name, run[k].call.sequence)
  }

  lemma ApprovingExactly(current: Handler, run: seq<Exchange>, k: nat)
    requires k < |run|
    ensures Approving(current, run[k]) <==> ApprovingAt(run, k)
  {
    ResultExactly(current, run[k].call, run[k].reply);
  }

  /** Commit answers are checked exactly as long as no approve of the run got to committing. */
  lemma {:induction false} AssertsExactly(run: seq<Exchange>)
    ensures AssertsAfter(run) <==> forall k: nat :: !ApprovingAt(run, k)
  {
    if run != [] {
      var n := |run| - 1;
      AssertsExactly(run[..n]);
      ApprovingExactly(HandlerAfterRun(run[..n]), run, n);
      forall k: nat | k < n ensures ApprovingAt(run[..n], k) <==> ApprovingAt(run, k) {
        assert run[..n][k] == run[k];
      }
    }
  }

  /** A done commit means an answer of SUCCESS with empty info exactly when answers are checked. */
  lemma CheckedMeansSuccess(asserts: bool)
    ensures (forall outcome: CommitOutcome, events: TxEvents ::
               CommitEnding(Done(false), asserts, outcome, events) == Result ==> Succeeded(outcome))
            <==> asserts
  {
    if !asserts {
      var refused := Answered(CommitAnswer("BAD_REQUEST", "rejected"));
      var events := [EventHub.Arrived(EventHub.TxEvent(1, "tx", EventHub.VALID))];
      FinalityExact(events);
      assert CommitEnding(Done(false), asserts, refused, events) == Result && !Succeeded(refused);
    }
  }

  /**
   That a definition is reported committed only when the orderer answered SUCCESS with empty info
   is guaranteed exactly when no earlier approve on the same object got to committing.
   */
  lemma CommitCheckedExactly(run: seq<Exchange>)
    ensures (forall outcome: CommitOutcome, events: TxEvents ::
               CommitEnding(Done(false), AssertsAfter(run), outcome, events) == Result ==> Succeeded(outcome))
            <==> forall k: nat :: !ApprovingAt(run, k)
  {
    AssertsExactly(run);
    CheckedMeansSuccess(AssertsAfter(run));
  }

  /**
   All the endings of a commit after any run on one object. It needs an accepted proposal, an answer
   of the orderer, which has to be SUCCESS with empty info unless an earlier approve got to
   committing, and a first event, which has to be VALID.
   */
  lemma CommitEndsExactly(run: seq<Exchange>, reply: Reply, outcome: CommitOutcome, events: TxEvents)
    ensures var r := ResultOf(HandlerAfterRun(run), CommitDefinition, reply);
            var e := CommitEnding(r, AssertsAfter(run), outcome, events);
            var accepted := reply.Reply? && reply.errors == [] && AllPass(HandlerAfterRun(run), reply.answers);
            var committed := accepted && outcome.Answered?
                             && (outcome == Answered(CommitAnswer("SUCCESS", ""))
                                 || exists k: nat :: ApprovingAt(run, k));
            && (e == Result <==> committed && FirstEventValid(events))
            && (e == Unsettled <==> committed && events == [])
            && (e == Threw <==> !committed || (events != [] && !FirstEventValid(events)))
            && CommitEffects(r, AssertsAfter(run), outcome, events)
               == (if !accepted then [Proposed]
                   else if !committed then [Proposed, SentToOrderer(outcome)]
                   else if events == [] then [Proposed, SentToOrderer(outcome), Listened]
                   else [Proposed, SentToOrderer(outcome), Listened, Disconnected])
  {
    ResultExactly(HandlerAfterRun(run), CommitDefinition, reply);
    AssertsExactly(run);
    FinalityExact(events);
    if outcome.Answered? {
      CommitSuccessExactly(outcome.answer);
    }
  }

  /** An install gives no result exactly when every peer answers that it has the package, vacuously without answers. */
  lemma InstallSkipsExactly(current: Handler, readable: bool, packageId: string, reply: Reply)
    ensures QueryEnding(ResultOf(current, Call.Install(readable, packageId), reply)) == Undefined
            <==> && readable && reply.Reply? && reply.errors == [] && reply.decodes
                 && forall i | 0 <= i < |reply.answers| :: HasInstalled(reply.answers[i], packageId)
  {
    ResultExactly(current, Call.Install(readable, packageId), reply);
  }

  /** A query gives no result exactly when every peer lacks the definition; without a name only vacuously. */
  lemma QuerySkipsExactly(current: Handler, name: string, reply: Reply)
    ensures QueryEnding(ResultOf(current, QueryDefinition(name), reply)) == Undefined
            <==> && reply.Reply? && reply.errors == [] && reply.decodes
                 && (if name == "" then reply.answers == []
                     else forall i | 0 <= i < |reply.answers| :: HasNoDefinition(reply.answers[i], name))
  {
    ResultExactly(current, QueryDefinition(name), reply);
    if reply.Reply? && name == "" && reply.answers != [] {
      assert reply.answers[0].status == 200 || !Exempts(EndorseAll, reply.answers[0]);
    }
  }

  /** The calls that only ask throw exactly when they are not done. */
  lemma QueryEndsExactly(current: Handler, c: Call, reply: Reply)
    requires c.Install? || c.CheckReadiness? || c.QueryDefinition?
    ensures var r := ResultOf(current, c, reply); var h := JudgingHandler(current, c);
            var done := (c.Install? ==> c.readable) && reply.Reply? && reply.errors == []
                        && AllPass(h, reply.answers) && reply.decodes;
            && (QueryEnding(r) == Threw <==> !done)
            && (QueryEnding(r) == Result <==> done && !Flag(c, reply.answers))
            && QueryEnding(r) != Unsettled
  {
    ResultExactly(current, c, reply);
  }

  /** Approving and then committing on one object: a refused commit is reported as done if a VALID event follows. */
  lemma ApproveThenUncheckedCommit(name: string, sequence: nat, refusal: CommitAnswer, events: TxEvents)
    requires !CommitSuccess(refusal) && FirstEventValid(events)
    ensures var approved := Exchange(Call.Approve(name, sequence), Reply([], [Answer(200, "", Some([]))], true));
            CommitEnding(Done(false), AssertsAfter([approved]), Answered(refusal), events) == Result
  {
    var approved := Exchange(Call.Approve(name, sequence), Reply([], [Answer(200, "", Some([]))], true));
    var run := [approved];
    assert approved.reply.answers[0].status == 200;
    assert run[..0] == [];
    FinalityExact(events);
  }
}
