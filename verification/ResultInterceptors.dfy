/** Endorsement and commit answers, and the handlers that accept or reject them. */
module ResultInterceptors {
  import opened Text
  import opened Numbers

  type Bytes = seq<bv8>

  /** The fields of an endorser's answer; `payload` is absent once it has been deleted. */
  datatype Answer = Answer(status: int, message: string, payload: Option<Bytes>)

  /** An answer as the object the handlers share and change. */
  class EndorserResponse {
    const status: int
    const message: string
    var payload: Option<Bytes>

    constructor (status: int, message: string, payload: Bytes)
      ensures Value() == Answer(status, message, Some(payload))
    {
      this.status := status;
      this.message := message;
      this.payload := Some(payload);
    }

    function Value(): Answer
      reads this
    {
      Answer(status, message, payload)
    }
  }

  /** One entry of `result.responses`: the answer and the endorser it came from. */
  datatype Entry = Entry(response: EndorserResponse, url: string)

  function Values(entries: seq<Entry>): seq<Answer>
    reads set e | e in entries :: e.response
  {
    seq(|entries|, i requires 0 <= i < |entries| reads set e | e in entries :: e.response =>
      entries[i].response.Value())
  }

  // ----- The answers a handler may let pass

  const INSTALLED_PREFIX :=
    "failed to invoke backing implementation of 'InstallChaincode': chaincode already successfully installed"

  /** An empty package id stands for none. */
  function InstalledMessage(packageId: string): string { INSTALLED_PREFIX + " (package ID '" + packageId + "')" }

  predicate HasInstalled(a: Answer, packageId: string) {
    && a.status == 500
    && if packageId != "" then a.message == InstalledMessage(packageId) else INSTALLED_PREFIX <= a.message
  }

  function NoChangeMessage(name: string, sequence: nat): string {
    "failed to invoke backing implementation of 'ApproveChaincodeDefinitionForMyOrg': "
    + "attempted to redefine uncommitted sequence (" + Decimal(sequence) + ") for namespace " + name
    + " with unchanged content"
  }

  predicate HasNoChange(a: Answer, name: string, sequence: nat) {
    a.status == 500 && a.message == NoChangeMessage(name, sequence) && a.payload == Some([])
  }

  /** What a template shows for the name; an absent one shows as `undefined`. */
  function NameText(name: string): string { if name == "" then "undefined" else name }

  predicate HasNoDefinition(a: Answer, name: string) {
    a.status == 404 && a.message == "namespace " + NameText(name) + " is not defined" && a.payload == Some([])
  }

  /** The result handlers: `EndorseALL` on its own, or with a filter for certain answers. */
  datatype Handler =
    | EndorseAll
    | SkipIfInstalled(packageId: string)
    | SkipIfNoChange(name: string, sequence: nat)
    | SkipIfNoDefinition(name: string)

  /** `skipIfNoDefinition(chaincodeID)` without an id is `EndorseALL`. */
  function NoDefinitionHandler(name: string): Handler { if name == "" then EndorseAll else SkipIfNoDefinition(name) }

  predicate Exempts(h: Handler, a: Answer) {
    match h
    case EndorseAll => false
    case SkipIfInstalled(packageId) => HasInstalled(a, packageId)
    case SkipIfNoChange(name, sequence) => HasNoChange(a, name, sequence)
    case SkipIfNoDefinition(name) => HasNoDefinition(a, name)
  }

  // What each handler lets pass, with statuses and messages written out.

  lemma InstalledExactly(a: Answer, packageId: string)
    ensures Exempts(SkipIfInstalled(packageId), a) <==>
              && a.status == 500
              && var installed :=
             "failed to invoke backing implementation of 'InstallChaincode': chaincode already successfully installed";
                 if packageId == "" then installed <= a.message
                 else a.message == installed + " (package ID '" + packageId + "')"
    ensures Exempts(SkipIfInstalled(packageId), a) <==> HasInstalled(a, packageId)
  {
  }

  lemma NoChangeExactly(a: Answer, name: string, sequence: nat)
    ensures Exempts(SkipIfNoChange(name, sequence), a) <==>
              && a.status == 500 && a.payload == Some([])
              && a.message
                 == "failed to invoke backing implementation of 'ApproveChaincodeDefinitionForMyOrg': "
                    + "attempted to redefine uncommitted sequence (" + Decimal(sequence) + ") for namespace " + name
                    + " with unchanged content"
    ensures Exempts(SkipIfNoChange(name, sequence), a) <==> HasNoChange(a, name, sequence)
  {
  }

  lemma NoDefinitionExactly(a: Answer, name: string)
    requires name != ""
    ensures Exempts(SkipIfNoDefinition(name), a) <==>
              && a.status == 404 && a.payload == Some([])
              && a.message == "namespace " + name + " is not defined"
    ensures Exempts(SkipIfNoDefinition(name), a) <==> HasNoDefinition(a, name)
    ensures !Exempts(EndorseAll, a)
  {
  }

  /** Without a name the text shows `undefined`. */
  lemma NoNameExactly(a: Answer)
    ensures HasNoDefinition(a, "") <==>
              a.status == 404 && a.payload == Some([]) && a.message == "namespace " + "undefined" + " is not defined"
  {
  }

  /** An answer the handler takes for an endorsement error. */
  predicate IsError(h: Handler, a: Answer) { a.status != 200 && !Exempts(h, a) }

  /** No transport errors, and every answer is a 200 or exempted. */
  predicate Accepts(h: Handler, errors: seq<string>, answers: seq<Answer>) {
    errors == [] && forall i | 0 <= i < |answers| :: !IsError(h, answers[i])
  }

  // ----- Handlers at work

  datatype SanResult = SystemError(errors: seq<string>) | Suspects(entries: seq<Entry>)

  /** The entries, in order, whose answer is not a 200. */
  function NotOk(entries: seq<Entry>): seq<Entry> {
    if entries == [] then []
    else
      var last := entries[|entries| - 1];
      NotOk(entries[..|entries| - 1]) + if last.response.status != 200 then [last] else []
  }

  lemma {:induction false} NotOkMembers(entries: seq<Entry>)
    ensures forall e | e in NotOk(entries) :: e in entries && e.response.status != 200
    ensures forall e | e in entries :: e.response.status != 200 ==> e in NotOk(entries)
  {
    if entries != [] {
      var n := |entries| - 1;
      NotOkMembers(entries[..n]);
      assert entries == entries[..n] + [entries[n]];
    }
  }

  /** The list grows with the responses, at its end, and so keeps their order. */
  lemma NotOkExactly(a: seq<Entry>, e: Entry)
    ensures NotOk([]) == []
    ensures NotOk(a + [e]) == NotOk(a) + if e.response.status == 200 then [] else [e]
  {
    assert (a + [e])[..|a + [e]| - 1] == a;
  }

  method SanCheck(errors: seq<string>, responses: seq<Entry>) returns (r: SanResult)
    ensures r == if errors != [] then SystemError(errors) else Suspects(NotOk(responses))
  {
    if |errors| > 0 {
      return SystemError(errors);
    }
    var endorsementResponses: seq<Entry> := [];
    for i := 0 to |responses|
      invariant endorsementResponses == NotOk(responses[..i])
    {
      assert responses[..i + 1][..i] == responses[..i];
      if responses[i].response.status != 200 {
        endorsementResponses := endorsementResponses + [responses[i]];
      }
    }
    assert responses[..|responses|] == responses;
    return Suspects(endorsementResponses);
  }

  datatype Check =
    | Passed
    | SystemErrorThrown(errors: seq<string>)
    | EndorseErrorThrown(byUrl: map<string, EndorserResponse>)

  ghost predicate FailedAnswer(h: Handler, e: Entry)
    reads e.response
  {
    IsError(h, e.response.Value())
  }

  /** `filter(errorsFilter)` */
  function Unexempted(h: Handler, entries: seq<Entry>): seq<Entry>
    reads set e | e in entries :: e.response
  {
    if entries == [] then []
    else
      var last := entries[|entries| - 1];
      Unexempted(h, entries[..|entries| - 1]) + if Exempts(h, last.response.Value()) then [] else [last]
  }

  lemma {:induction false} UnexemptedMembers(h: Handler, entries: seq<Entry>)
    ensures forall e | e in Unexempted(h, entries) :: e in entries && !Exempts(h, e.response.Value())
    ensures forall e | e in entries && !Exempts(h, e.response.Value()) :: e in Unexempted(h, entries)
  {
    if entries != [] {
      var n := |entries| - 1;
      UnexemptedMembers(h, entries[..n]);
      assert entries == entries[..n] + [entries[n]];
    }
  }

  lemma UnexemptedExactly(h: Handler, a: seq<Entry>, e: Entry)
    ensures Unexempted(h, []) == []
    ensures Unexempted(h, a + [e]) == Unexempted(h, a) + if Exempts(h, e.response.Value()) then [] else [e]
  {
    assert (a + [e])[..|a + [e]| - 1] == a;
  }

  /** The entries, in order, that the handler takes for errors. */
  ghost function Failed(h: Handler, responses: seq<Entry>): seq<Entry>
    reads set e | e in responses :: e.response
  {
    NotOkMembers(responses);
    Unexempted(h, NotOk(responses))
  }

  /** The report: of several entries of one endorser the last one counts. */
  function LastByUrl(entries: seq<Entry>): map<string, EndorserResponse> {
    if entries == [] then map[]
    else
      var last := entries[|entries| - 1];
      LastByUrl(entries[..|entries| - 1])[last.url := last.response]
  }

  predicate LastOf(entries: seq<Entry>, url: string, i: nat) {
    i < |entries| && entries[i].url == url && forall j | i < j < |entries| :: entries[j].url != url
  }

  lemma {:induction false} LastByUrlExact(entries: seq<Entry>, url: string, i: nat)
    ensures url in LastByUrl(entries) <==> exists j: nat :: LastOf(entries, url, j)
    ensures LastOf(entries, url, i) ==> url in LastByUrl(entries) && LastByUrl(entries)[url] == entries[i].response
  {
    if entries != [] {
      var n := |entries| - 1;
      var front := entries[..n];
      assert forall j | 0 <= j < n :: front[j] == entries[j];
      LastByUrlExact(front, url, i);
      if entries[n].url == url {
        assert LastOf(entries, url, n);
      } else {
        forall j: nat ensures LastOf(entries, url, j) <==> LastOf(front, url, j) {
        }
      }
    }
  }

  /**
   `EndorseALL` with the filter of a handler. It passes exactly the results the handler accepts and
   then leaves every answer as it was. When it throws for endorsement errors, it has deleted the
   payload of exactly the failed answers and reports, for each of their endorsers, the last of them.
   */
  method CheckEndorsements(h: Handler, errors: seq<string>, responses: seq<Entry>) returns (c: Check)
    modifies set e | e in responses :: e.response
    ensures c.Passed? <==> Accepts(h, errors, old(Values(responses)))
    ensures c.SystemErrorThrown? <==> errors != []
    ensures c.SystemErrorThrown? ==> c.errors == errors
    ensures !c.EndorseErrorThrown? ==> forall e | e in responses :: e.response.payload == old(e.response.payload)
    ensures c.EndorseErrorThrown? ==>
              && (forall e | e in responses ::
                    e.response.payload == if old(FailedAnswer(h, e)) then None else old(e.response.payload))
              && c.byUrl == LastByUrl(old(Failed(h, responses)))
  {
    AcceptsUnlessFailed(h, responses);
    var san := SanCheck(errors, responses);
    if san.SystemError? {
      return SystemErrorThrown(san.errors);
    }
    c := ThrowIfFailed(h, responses, san.entries);
  }

  /** The rest of `EndorseALL`, on the answers that are not a 200. */
  method ThrowIfFailed(h: Handler, ghost responses: seq<Entry>, suspects: seq<Entry>) returns (c: Check)
    requires suspects == NotOk(responses)
    modifies set e | e in responses :: e.response
    ensures !c.SystemErrorThrown? && (c.Passed? <==> old(Failed(h, responses)) == [])
    ensures c.Passed? ==> forall e | e in responses :: e.response.payload == old(e.response.payload)
    ensures c.EndorseErrorThrown? ==>
              && (forall e | e in responses ::
                    e.response.payload == if old(FailedAnswer(h, e)) then None else old(e.response.payload))
              && c.byUrl == LastByUrl(old(Failed(h, responses)))
  {
    NotOkMembers(responses);
    var endorsementErrors := Filter(h, suspects);
    if |endorsementErrors| == 0 {
      return Passed;
    }
    FailedMembers(h, responses);
    var byUrl := ReportErrors(h, responses, endorsementErrors);
    return EndorseErrorThrown(byUrl);
  }

  /** `filter(errorsFilter)` with the filter of a handler. */
  method Filter(h: Handler, suspects: seq<Entry>) returns (kept: seq<Entry>)
    ensures kept == Unexempted(h, suspects)
  {
    kept := [];
    for i := 0 to |suspects|
      invariant kept == Unexempted(h, suspects[..i])
    {
      assert suspects[..i + 1][..i] == suspects[..i];
      if !Exempts(h, suspects[i].response.Value()) {
        kept := kept + [suspects[i]];
      }
    }
    assert suspects[..|suspects|] == suspects;
  }

  lemma FailedMembers(h: Handler, responses: seq<Entry>)
    ensures forall e | e in Failed(h, responses) :: e in responses && FailedAnswer(h, e)
    ensures forall e | e in responses && FailedAnswer(h, e) :: e in Failed(h, responses)
  {
    NotOkMembers(responses);
    UnexemptedMembers(h, NotOk(responses));
  }

  lemma AcceptsUnlessFailed(h: Handler, responses: seq<Entry>)
    ensures Failed(h, responses) == [] <==> Accepts(h, [], Values(responses))
  {
    var failed := Failed(h, responses);
    FailedMembers(h, responses);
    if failed == [] {
      forall i | 0 <= i < |responses| ensures !IsError(h, Values(responses)[i]) {
        assert responses[i] in responses;
      }
    } else {
      var e := failed[0];
      assert e in failed && e in responses;
      var i :| 0 <= i < |responses| && responses[i] == e;
      assert IsError(h, Values(responses)[i]);
    }
  }

  /** Deletes the payloads of the failed answers and files them by endorser; the last one wins. */
  method ReportErrors(ghost h: Handler, ghost responses: seq<Entry>, failed: seq<Entry>)
    returns (byUrl: map<string, EndorserResponse>)
    requires forall e | e in failed :: e in responses && FailedAnswer(h, e)
    requires forall e | e in responses && FailedAnswer(h, e) :: e in failed
    modifies set e | e in responses :: e.response
    ensures forall e | e in responses ::
              e.response.payload == if old(FailedAnswer(h, e)) then None else old(e.response.payload)
    ensures byUrl == LastByUrl(failed)
  {
    byUrl := map[];
    for i := 0 to |failed|
      invariant forall j | 0 <= j < i :: failed[j].response.payload == None
      invariant forall e | e in responses ::
                  e.response.payload == old(e.response.payload)
                  || (e.response.payload == None && old(FailedAnswer(h, e)))
      invariant byUrl == LastByUrl(failed[..i])
    {
      var e := failed[i];
      e.response.payload := None;
      byUrl := byUrl[e.url := e.response];
      assert e in failed && failed[..i + 1][..i] == failed[..i];
    }
    assert failed[..|failed|] == failed;
  }

  // ----- Commit answers

  datatype CommitAnswer = CommitAnswer(status: string, info: string)

  /** `CommitSuccess`: anything else is a thrown COMMIT_ERROR. */
  predicate CommitSuccess(a: CommitAnswer) { a.status == "SUCCESS" && a.info == "" }

  /** The one answer that is a success. */
  lemma CommitSuccessExactly(a: CommitAnswer)
    ensures CommitSuccess(a) <==> a == CommitAnswer("SUCCESS", "")
  {
  }

  /** An answer each filtering handler lets pass although it is no endorsement. */
  lemma EveryFilterExempts(h: Handler) returns (a: Answer)
    requires h != EndorseAll
    ensures a.status != 200 && Exempts(h, a) && a.payload == Some([])
  {
    match h
    case SkipIfInstalled(packageId) =>
      a := Answer(500, if packageId != "" then InstalledMessage(packageId) else INSTALLED_PREFIX, Some([]));
    case SkipIfNoChange(name, sequence) =>
      a := Answer(500, NoChangeMessage(name, sequence), Some([]));
    case SkipIfNoDefinition(name) =>
      a := Answer(404, "namespace " + NameText(name) + " is not defined", Some([]));
  }
}
