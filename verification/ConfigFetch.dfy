/** Fetching the channel configuration in two reads from an orderer whose ledger keeps growing. */
module ConfigFetch {
  import opened Text
  import opened OrdererDeliver

  const CONFIG_TX := 1

  /** A transaction envelope: its header type, and what its payload decodes to as a configuration. */
  datatype Envelope = Envelope(headerType: int, config: nat)

  /** A block with the index its LAST_CONFIG metadata holds. */
  datatype Block = Block(data: seq<Envelope>, lastConfig: nat)

  type Ledger = seq<Block>

  predicate IsConfigBlock(b: Block) { |b.data| == 1 && b.data[0].headerType == CONFIG_TX }

  /** Each LAST_CONFIG names the greatest config block not after its own block. */
  predicate LastConfigCorrect(l: Ledger) {
    forall i | 0 <= i < |l| ::
      && l[i].lastConfig <= i
      && IsConfigBlock(l[l[i].lastConfig])
      && forall j | l[i].lastConfig < j <= i :: !IsConfigBlock(l[j])
  }

  /** The configuration after applying the blocks of a ledger one by one, if any was set. */
  function InForce(l: Ledger): Option<nat> {
    if l == [] then None
    else
      var last := l[|l| - 1];
      if IsConfigBlock(last) then Some(last.data[0].config) else InForce(l[..|l| - 1])
  }

  lemma {:induction false} InForceIsLastConfig(l: Ledger, k: nat)
    requires k < |l| && IsConfigBlock(l[k])
    requires forall j | k < j < |l| :: !IsConfigBlock(l[j])
    ensures InForce(l) == Some(l[k].data[0].config)
  {
    if k < |l| - 1 {
      InForceIsLastConfig(l[..|l| - 1], k);
    }
  }

  /** Nothing is in force exactly on a ledger without config blocks. */
  lemma {:induction false} NothingInForce(l: Ledger)
    ensures InForce(l) == None <==> forall j | 0 <= j < |l| :: !IsConfigBlock(l[j])
  {
    if l != [] {
      NothingInForce(l[..|l| - 1]);
      assert forall j | 0 <= j < |l| - 1 :: l[..|l| - 1][j] == l[j];
    }
  }

  datatype Seek = Newest | At(height: nat)

  /** What an orderer answers for a ledger; nothing when the block is not there. */
  function Answer(l: Ledger, seek: Seek): seq<Block> {
    match seek
    case Newest => if l == [] then [] else [l[|l| - 1]]
    case At(h) => if h < |l| then [l[h]] else []
  }

  // ----- One read with its retries

  /** One try is the run of one deliver call. */
  type Try = seq<Event<Block>>

  datatype ReadResult = Got(blocks: seq<Block>) | Failed(failure: Failure) | StillTrying

  predicate Retryable(f: Failure) { f == InvalidStatus(Named("SERVICE_UNAVAILABLE")) }

  function Read(tries: seq<Try>, waitIfUnavailable: bool): ReadResult {
    if tries == [] then StillTrying
    else
      match Run(tries[0]).promise
      case Pending => StillTrying
      case Resolved(blocks) => Got(blocks)
      case Rejected(f) =>
        if waitIfUnavailable && Retryable(f) then Read(tries[1..], waitIfUnavailable) else Failed(f)
  }

  /** `getSpecificBlock`: its own retry loop. */
  method GetSpecificBlock(tries: seq<Try>, waitIfUnavailable: bool) returns (r: ReadResult)
    ensures r == Read(tries, waitIfUnavailable)
    decreases |tries|
  {
    if tries == [] {
      return StillTrying;
    }
    match Run(tries[0]).promise {
      case Pending => return StillTrying;
      case Resolved(blocks) => return Got(blocks);
      case Rejected(e) =>
        if waitIfUnavailable {
          if Retryable(e) {
            r := GetSpecificBlock(tries[1..], waitIfUnavailable);
            return;
          }
        }
        return Failed(e);
    }
  }

  /** The first `k` tries got the status SERVICE_UNAVAILABLE; there are some only if waiting was asked for. */
  predicate UnavailableUntil(tries: seq<Try>, waitIfUnavailable: bool, k: nat) {
    && k <= |tries|
    && (k > 0 ==> waitIfUnavailable)
    && forall j | 0 <= j < k :: Run(tries[j]).promise == Rejected(InvalidStatus(Named("SERVICE_UNAVAILABLE")))
  }

  /** Then try `k` resolves with these blocks. */
  predicate SucceedsAt(tries: seq<Try>, waitIfUnavailable: bool, k: nat, blocks: seq<Block>) {
    UnavailableUntil(tries, waitIfUnavailable, k) && k < |tries| && Run(tries[k]).promise == Resolved(blocks)
  }

  /** Then try `k` fails, and not in a way that is tried again. */
  predicate FailsAt(tries: seq<Try>, waitIfUnavailable: bool, k: nat, f: Failure) {
    && UnavailableUntil(tries, waitIfUnavailable, k)
    && k < |tries|
    && Run(tries[k]).promise == Rejected(f)
    && (waitIfUnavailable ==> f != InvalidStatus(Named("SERVICE_UNAVAILABLE")))
  }

  /** Then try `k` has not settled, or has not been made. */
  predicate UnsettledAt(tries: seq<Try>, waitIfUnavailable: bool, k: nat) {
    UnavailableUntil(tries, waitIfUnavailable, k) && (k == |tries| || Run(tries[k]).promise.Pending?)
  }

  ghost predicate Gets(tries: seq<Try>, waitIfUnavailable: bool, blocks: seq<Block>) {
    exists k: nat :: SucceedsAt(tries, waitIfUnavailable, k, blocks)
  }

  ghost predicate Fails(tries: seq<Try>, waitIfUnavailable: bool, f: Failure) {
    exists k: nat :: FailsAt(tries, waitIfUnavailable, k, f)
  }

  ghost predicate IsUnsettled(tries: seq<Try>, waitIfUnavailable: bool) {
    exists k: nat :: UnsettledAt(tries, waitIfUnavailable, k)
  }

  lemma UnavailableFirst(tries: seq<Try>, waitIfUnavailable: bool, k: nat)
    requires waitIfUnavailable && tries != []
    requires Run(tries[0]).promise == Rejected(InvalidStatus(Named("SERVICE_UNAVAILABLE")))
    ensures UnavailableUntil(tries[1..], waitIfUnavailable, k) <==> UnavailableUntil(tries, waitIfUnavailable, k + 1)
  {
    assert forall j | 1 <= j < |tries| :: tries[j] == tries[1..][j - 1];
    assert forall j | 0 <= j < |tries| - 1 :: tries[1..][j] == tries[j + 1];
  }

  /**
   How a read ends. It gets blocks iff a try resolves with them after retryable failures only; it
   fails iff a try fails after such failures and is not made again; else it is still trying.
   */
  lemma {:induction false} ReadExact(tries: seq<Try>, waitIfUnavailable: bool)
    ensures forall blocks :: Read(tries, waitIfUnavailable) == Got(blocks) <==> Gets(tries, waitIfUnavailable, blocks)
    ensures forall f :: Read(tries, waitIfUnavailable) == Failed(f) <==> Fails(tries, waitIfUnavailable, f)
    ensures Read(tries, waitIfUnavailable) == StillTrying <==> IsUnsettled(tries, waitIfUnavailable)
  {
    var k := ReadEnd(tries, waitIfUnavailable);
    match Read(tries, waitIfUnavailable) {
      case Got(blocks) => assert SucceedsAt(tries, waitIfUnavailable, k, blocks);
      case Failed(f) => assert FailsAt(tries, waitIfUnavailable, k, f);
      case StillTrying => assert UnsettledAt(tries, waitIfUnavailable, k);
    }
    forall blocks, j: nat | SucceedsAt(tries, waitIfUnavailable, j, blocks)
      ensures Read(tries, waitIfUnavailable) == Got(blocks)
    {
      OneEnd(tries, waitIfUnavailable, k, j);
    }
    forall f, j: nat | FailsAt(tries, waitIfUnavailable, j, f) ensures Read(tries, waitIfUnavailable) == Failed(f) {
      OneEnd(tries, waitIfUnavailable, k, j);
    }
    forall j: nat | UnsettledAt(tries, waitIfUnavailable, j) ensures Read(tries, waitIfUnavailable) == StillTrying {
      OneEnd(tries, waitIfUnavailable, k, j);
    }
  }

  /** Try `k` is the last one made: it is not one that is made again. */
  predicate EndsAt(tries: seq<Try>, waitIfUnavailable: bool, k: nat) {
    && UnavailableUntil(tries, waitIfUnavailable, k)
    && (k < |tries| && waitIfUnavailable ==>
          Run(tries[k]).promise != Rejected(InvalidStatus(Named("SERVICE_UNAVAILABLE"))))
  }

  lemma {:induction false} ReadEnd(tries: seq<Try>, waitIfUnavailable: bool) returns (k: nat)
    ensures EndsAt(tries, waitIfUnavailable, k)
    ensures Read(tries, waitIfUnavailable)
            == if k == |tries| then StillTrying
               else
                 match Run(tries[k]).promise
                 case Pending => StillTrying
                 case Resolved(blocks) => Got(blocks)
                 case Rejected(f) => Failed(f)
  {
    k := 0;
    if tries != [] && waitIfUnavailable
       && Run(tries[0]).promise == Rejected(InvalidStatus(Named("SERVICE_UNAVAILABLE")))
    {
      var rest := ReadEnd(tries[1..], waitIfUnavailable);
      UnavailableFirst(tries, waitIfUnavailable, rest);
      k := rest + 1;
    }
  }

  lemma OneEnd(tries: seq<Try>, waitIfUnavailable: bool, k: nat, j: nat)
    requires EndsAt(tries, waitIfUnavailable, k) && EndsAt(tries, waitIfUnavailable, j)
    ensures k == j
  {
  }

  // ----- The two reads

  datatype FetchResult =
    | Config(config: nat)
    | NoBlock
    | NotConfigBlock
    | ReadFailed(failure: Failure)
    | Unfinished

  /** `assertConfigBlock`: throws unless there is exactly one transaction and it is a CONFIG. */
  method AssertConfigBlock(b: Block) returns (ok: bool)
    ensures ok <==> IsConfigBlock(b)
    ensures ok <==> |b.data| == 1 && b.data[0].headerType == 1
  {
    if |b.data| != 1 {
      return false;
    }
    var envelope := b.data[0];
    return envelope.headerType == CONFIG_TX;
  }

  /** The second read, of the block the first one points to. `triesAt(h)` are the tries for height `h`. */
  function Fetch(first: seq<Try>, triesAt: nat -> seq<Try>, waitIfUnavailable: bool): FetchResult {
    match Read(first, waitIfUnavailable)
    case StillTrying => Unfinished
    case Failed(f) => ReadFailed(f)
    case Got(blocks) =>
      if blocks == [] then NoBlock
      else
        match Read(triesAt(blocks[0].lastConfig), waitIfUnavailable)
        case StillTrying => Unfinished
        case Failed(f) => ReadFailed(f)
        case Got(configBlocks) =>
          if configBlocks == [] then NoBlock
          else if !IsConfigBlock(configBlocks[0]) then NotConfigBlock
          else Config(configBlocks[0].data[0].config)
  }

  /** `getChannelConfigFromOrderer`, which never asks its reads to wait and retry. */
  method GetChannelConfigFromOrderer(first: seq<Try>, triesAt: nat -> seq<Try>) returns (r: FetchResult)
    ensures r == Fetch(first, triesAt, false)
  {
    var eventBlock := GetSpecificBlock(first, false);
    match eventBlock {
      case StillTrying => return Unfinished;
      case Failed(f) => return ReadFailed(f);
      case Got(blocks) =>
        if blocks == [] {
          return NoBlock;
        }
        var lastConfigBlockHeight := blocks[0].lastConfig;
        var eventLastConfigBlock := GetSpecificBlock(triesAt(lastConfigBlockHeight), false);
        match eventLastConfigBlock {
          case StillTrying => return Unfinished;
          case Failed(f) => return ReadFailed(f);
          case Got(configBlocks) =>
            if configBlocks == [] {
              return NoBlock;
            }
            var ok := AssertConfigBlock(configBlocks[0]);
            if !ok {
              return NotConfigBlock;
            }
            return Config(configBlocks[0].data[0].config);
        }
    }
  }

  // ----- How a fetch ends

  /** The first read gets these blocks, and the second, for the height the first of them points to, those. */
  ghost predicate BothGet(
      first: seq<Try>, triesAt: nat -> seq<Try>, waitIfUnavailable: bool, seen: seq<Block>, found: seq<Block>)
  {
    Gets(first, waitIfUnavailable, seen) && seen != [] && Gets(triesAt(seen[0].lastConfig), waitIfUnavailable, found)
  }

  ghost predicate SecondFails(
      first: seq<Try>, triesAt: nat -> seq<Try>, waitIfUnavailable: bool, seen: seq<Block>, f: Failure)
  {
    Gets(first, waitIfUnavailable, seen) && seen != [] && Fails(triesAt(seen[0].lastConfig), waitIfUnavailable, f)
  }

  ghost predicate SecondUnsettled(
      first: seq<Try>, triesAt: nat -> seq<Try>, waitIfUnavailable: bool, seen: seq<Block>)
  {
    Gets(first, waitIfUnavailable, seen) && seen != [] && IsUnsettled(triesAt(seen[0].lastConfig), waitIfUnavailable)
  }

  /**
   All five endings of a fetch. It returns a configuration iff both reads get a block and the second
   one is a config block with this configuration; it rejects with a failure iff one of the reads does;
   it is unfinished iff one of the reads is still trying.
   */
  lemma FetchExactly(first: seq<Try>, triesAt: nat -> seq<Try>, waitIfUnavailable: bool)
    ensures forall c :: Fetch(first, triesAt, waitIfUnavailable) == Config(c) <==>
              exists seen: seq<Block>, found: seq<Block> ::
                && BothGet(first, triesAt, waitIfUnavailable, seen, found)
                && found != [] && |found[0].data| == 1 && found[0].data[0] == Envelope(1, c)
    ensures forall f :: Fetch(first, triesAt, waitIfUnavailable) == ReadFailed(f) <==>
              || Fails(first, waitIfUnavailable, f)
              || exists seen: seq<Block> :: SecondFails(first, triesAt, waitIfUnavailable, seen, f)
    ensures Fetch(first, triesAt, waitIfUnavailable) == Unfinished <==>
              || IsUnsettled(first, waitIfUnavailable)
              || exists seen: seq<Block> :: SecondUnsettled(first, triesAt, waitIfUnavailable, seen)
    ensures Fetch(first, triesAt, waitIfUnavailable) == NoBlock <==>
              || Gets(first, waitIfUnavailable, [])
              || exists seen: seq<Block> :: BothGet(first, triesAt, waitIfUnavailable, seen, [])
    ensures Fetch(first, triesAt, waitIfUnavailable) == NotConfigBlock <==>
              exists seen: seq<Block>, found: seq<Block> ::
                && BothGet(first, triesAt, waitIfUnavailable, seen, found)
                && found != [] && (|found[0].data| != 1 || found[0].data[0].headerType != 1)
  {
    ReadExact(first, waitIfUnavailable);
    if Read(first, waitIfUnavailable).Got? && Read(first, waitIfUnavailable).blocks != [] {
      var seen := Read(first, waitIfUnavailable).blocks;
      var tries := triesAt(seen[0].lastConfig);
      ReadExact(tries, waitIfUnavailable);
      match Read(tries, waitIfUnavailable)
      case Got(found) => assert BothGet(first, triesAt, waitIfUnavailable, seen, found);
      case Failed(f) => assert SecondFails(first, triesAt, waitIfUnavailable, seen, f);
      case StillTrying => assert SecondUnsettled(first, triesAt, waitIfUnavailable, seen);
    }
  }

  // ----- Against a growing ledger

  /** Whenever a try resolves, it is with the answer for the ledger at that time. */
  predicate Honest(tries: seq<Try>, ledgers: seq<Ledger>, seek: Seek) {
    && |ledgers| == |tries|
    && forall i | 0 <= i < |tries| && Run(tries[i]).promise.Resolved? ::
         Run(tries[i]).promise.blocks == Answer(ledgers[i], seek)
  }

  /** Ledgers with correct metadata, none of them empty, each extending `base`. */
  predicate GrowFrom(base: Ledger, ledgers: seq<Ledger>) {
    forall i | 0 <= i < |ledgers| :: base <= ledgers[i] && ledgers[i] != [] && LastConfigCorrect(ledgers[i])
  }

  /**
   The fetch returns the configuration in force at the newest block its first read saw: `k` is the
   try that got it. This holds whatever is appended between the reads and between their tries and
   however many retryable failures come first; the config-block check never fails.
   */
  lemma FetchesConfigInForce(
      first: seq<Try>, triesAt: nat -> seq<Try>, waitIfUnavailable: bool,
      ledgers: seq<Ledger>, later: nat -> seq<Ledger>)
    returns (k: nat)
    requires GrowFrom([], ledgers) && Honest(first, ledgers, Newest)
    requires forall i, h: nat | 0 <= i < |ledgers| :: GrowFrom(ledgers[i], later(h))
    requires forall h: nat :: Honest(triesAt(h), later(h), At(h))
    ensures Fetch(first, triesAt, waitIfUnavailable) !in {NoBlock, NotConfigBlock}
    ensures Read(first, waitIfUnavailable).Got? ==>
              k < |ledgers| && SucceedsAt(first, waitIfUnavailable, k, Answer(ledgers[k], Newest))
    ensures Fetch(first, triesAt, waitIfUnavailable).Config? ==>
              Read(first, waitIfUnavailable).Got?
              && InForce(ledgers[k]) == Some(Fetch(first, triesAt, waitIfUnavailable).config)
  {
    k := 0;
    if Read(first, waitIfUnavailable).Got? {
      k := FirstRead(first, waitIfUnavailable, ledgers);
      var seen := ledgers[k];
      var h := seen[|seen| - 1].lastConfig;
      LaterGrows(ledgers, later, k, h);
      FromSeen(first, triesAt, waitIfUnavailable, seen, later(h));
    }
  }

  lemma LaterGrows(ledgers: seq<Ledger>, later: nat -> seq<Ledger>, k: nat, h: nat)
    requires k < |ledgers| && forall i, j: nat | 0 <= i < |ledgers| :: GrowFrom(ledgers[i], later(j))
    ensures GrowFrom(ledgers[k], later(h))
  {
  }

  /** The same, from the ledger whose newest block the first read got. */
  lemma FromSeen(
      first: seq<Try>, triesAt: nat -> seq<Try>, waitIfUnavailable: bool, seen: Ledger, ledgers: seq<Ledger>)
    requires seen != [] && LastConfigCorrect(seen) && Read(first, waitIfUnavailable) == Got(Answer(seen, Newest))
    requires var h := seen[|seen| - 1].lastConfig; GrowFrom(seen, ledgers) && Honest(triesAt(h), ledgers, At(h))
    ensures Fetch(first, triesAt, waitIfUnavailable) !in {NoBlock, NotConfigBlock}
    ensures Fetch(first, triesAt, waitIfUnavailable).Config? ==>
              InForce(seen) == Some(Fetch(first, triesAt, waitIfUnavailable).config)
  {
    var h := seen[|seen| - 1].lastConfig;
    InForceIsLastConfig(seen, h);
    SecondRead(triesAt(h), waitIfUnavailable, seen, ledgers, h);
    SecondStep(first, triesAt, waitIfUnavailable, seen);
  }

  /** Try `k` of the first read and try `j` of the second succeed, each with the ledger's answer. */
  predicate BothSucceed(
      first: seq<Try>, triesAt: nat -> seq<Try>, waitIfUnavailable: bool, ledgers: seq<Ledger>, k: nat, j: nat)
  {
    && k < |ledgers| && ledgers[k] != []
    && var seen := ledgers[k]; var h := seen[|seen| - 1].lastConfig;
    && h < |seen|
    && SucceedsAt(first, waitIfUnavailable, k, [seen[|seen| - 1]])
    && SucceedsAt(triesAt(h), waitIfUnavailable, j, [seen[h]])
  }

  /**
   And it does return one: the fetch ends with a configuration iff both reads succeed at some try,
   and then with the one in force at the newest block the first read saw.
   */
  lemma ReturnsConfigExactly(
      first: seq<Try>, triesAt: nat -> seq<Try>, waitIfUnavailable: bool,
      ledgers: seq<Ledger>, later: nat -> seq<Ledger>, c: nat)
    requires GrowFrom([], ledgers) && Honest(first, ledgers, Newest)
    requires forall i, h: nat | 0 <= i < |ledgers| :: GrowFrom(ledgers[i], later(h))
    requires forall h: nat :: Honest(triesAt(h), later(h), At(h))
    ensures Fetch(first, triesAt, waitIfUnavailable) == Config(c) <==>
              exists k: nat, j: nat ::
                BothSucceed(first, triesAt, waitIfUnavailable, ledgers, k, j) && InForce(ledgers[k]) == Some(c)
  {
    if Fetch(first, triesAt, waitIfUnavailable) == Config(c) {
      var k := FetchesConfigInForce(first, triesAt, waitIfUnavailable, ledgers, later);
      assert GrowFrom(ledgers[k], later(ledgers[k][|ledgers[k]| - 1].lastConfig));
      var j := ReturnedReads(first, triesAt, waitIfUnavailable, ledgers, k,
                             later(ledgers[k][|ledgers[k]| - 1].lastConfig));
    }
    if k: nat, j: nat :| BothSucceed(first, triesAt, waitIfUnavailable, ledgers, k, j)
                         && InForce(ledgers[k]) == Some(c)
    {
      assert LastConfigCorrect(ledgers[k]);
      SucceedingReads(first, triesAt, waitIfUnavailable, ledgers, k, j);
    }
  }

  lemma SucceedingReads(
      first: seq<Try>, triesAt: nat -> seq<Try>, waitIfUnavailable: bool, ledgers: seq<Ledger>, k: nat, j: nat)
    requires BothSucceed(first, triesAt, waitIfUnavailable, ledgers, k, j) && LastConfigCorrect(ledgers[k])
    ensures InForce(ledgers[k]).Some?
    ensures Fetch(first, triesAt, waitIfUnavailable) == Config(InForce(ledgers[k]).value)
  {
    var seen := ledgers[k];
    var h := seen[|seen| - 1].lastConfig;
    SucceedingRead(first, waitIfUnavailable, k, [seen[|seen| - 1]]);
    SucceedingRead(triesAt(h), waitIfUnavailable, j, [seen[h]]);
    InForceIsLastConfig(seen, h);
  }

  lemma ReturnedReads(
      first: seq<Try>, triesAt: nat -> seq<Try>, waitIfUnavailable: bool, ledgers: seq<Ledger>, k: nat,
      later: seq<Ledger>)
    returns (j: nat)
    requires k < |ledgers| && ledgers[k] != [] && LastConfigCorrect(ledgers[k])
    requires SucceedsAt(first, waitIfUnavailable, k, Answer(ledgers[k], Newest))
    requires var h := ledgers[k][|ledgers[k]| - 1].lastConfig;
             GrowFrom(ledgers[k], later) && Honest(triesAt(h), later, At(h))
    requires Fetch(first, triesAt, waitIfUnavailable).Config?
    ensures BothSucceed(first, triesAt, waitIfUnavailable, ledgers, k, j)
  {
    var seen := ledgers[k];
    var h := seen[|seen| - 1].lastConfig;
    SucceedingRead(first, waitIfUnavailable, k, [seen[|seen| - 1]]);
    SecondRead(triesAt(h), waitIfUnavailable, seen, later, h);
    SecondGot(first, triesAt, waitIfUnavailable, seen);
    j := GotAt(triesAt(h), waitIfUnavailable, [seen[h]]);
  }

  lemma SecondGot(first: seq<Try>, triesAt: nat -> seq<Try>, waitIfUnavailable: bool, seen: Ledger)
    requires seen != [] && Read(first, waitIfUnavailable) == Got([seen[|seen| - 1]])
    requires Fetch(first, triesAt, waitIfUnavailable).Config?
    ensures Read(triesAt(seen[|seen| - 1].lastConfig), waitIfUnavailable).Got?
  {
  }

  lemma GotAt(tries: seq<Try>, waitIfUnavailable: bool, blocks: seq<Block>) returns (k: nat)
    requires Read(tries, waitIfUnavailable) == Got(blocks)
    ensures SucceedsAt(tries, waitIfUnavailable, k, blocks)
  {
    ReadExact(tries, waitIfUnavailable);
    k :| SucceedsAt(tries, waitIfUnavailable, k, blocks);
  }

  lemma SucceedingRead(tries: seq<Try>, waitIfUnavailable: bool, k: nat, blocks: seq<Block>)
    requires SucceedsAt(tries, waitIfUnavailable, k, blocks)
    ensures Read(tries, waitIfUnavailable) == Got(blocks)
  {
    ReadExact(tries, waitIfUnavailable);
  }

  lemma FirstRead(tries: seq<Try>, waitIfUnavailable: bool, ledgers: seq<Ledger>) returns (k: nat)
    requires GrowFrom([], ledgers) && Honest(tries, ledgers, Newest) && Read(tries, waitIfUnavailable).Got?
    ensures k < |ledgers| && SucceedsAt(tries, waitIfUnavailable, k, Answer(ledgers[k], Newest))
    ensures Read(tries, waitIfUnavailable).blocks == Answer(ledgers[k], Newest)
    ensures ledgers[k] != [] && LastConfigCorrect(ledgers[k])
  {
    var blocks := Read(tries, waitIfUnavailable).blocks;
    ReadExact(tries, waitIfUnavailable);
    k :| SucceedsAt(tries, waitIfUnavailable, k, blocks);
  }

  /** The fetch, once the first read gave the newest block of `seen`. */
  lemma SecondStep(first: seq<Try>, triesAt: nat -> seq<Try>, waitIfUnavailable: bool, seen: Ledger)
    requires seen != [] && seen[|seen| - 1].lastConfig < |seen|
    requires Read(first, waitIfUnavailable) == Got([seen[|seen| - 1]])
    requires var h := seen[|seen| - 1].lastConfig;
             && IsConfigBlock(seen[h])
             && (Read(triesAt(h), waitIfUnavailable).Got? ==> Read(triesAt(h), waitIfUnavailable).blocks == [seen[h]])
    ensures Fetch(first, triesAt, waitIfUnavailable) !in {NoBlock, NotConfigBlock}
    ensures Fetch(first, triesAt, waitIfUnavailable).Config? ==>
              Fetch(first, triesAt, waitIfUnavailable).config == seen[seen[|seen| - 1].lastConfig].data[0].config
  {
  }

  lemma SecondRead(tries: seq<Try>, waitIfUnavailable: bool, seen: Ledger, ledgers: seq<Ledger>, h: nat)
    requires h < |seen| && GrowFrom(seen, ledgers) && Honest(tries, ledgers, At(h))
    ensures Read(tries, waitIfUnavailable).Got? ==> Read(tries, waitIfUnavailable).blocks == [seen[h]]
  {
    if Read(tries, waitIfUnavailable).Got? {
      var blocks := Read(tries, waitIfUnavailable).blocks;
      ReadExact(tries, waitIfUnavailable);
      var j: nat :| SucceedsAt(tries, waitIfUnavailable, j, blocks);
      assert Run(tries[j]).promise.Resolved?;
      assert blocks == Answer(ledgers[j], At(h));
      AnswerOfLonger(seen, ledgers[j], h);
    }
  }

  /** A block stays where it is while its ledger grows. */
  lemma AnswerOfLonger(seen: Ledger, l: Ledger, h: nat)
    requires h < |seen| && seen <= l
    ensures Answer(l, At(h)) == [seen[h]]
  {
    assert l[h] == seen[h];
  }

  /** A corollary, for the call as it is made: without waiting, one failure of the first read fails the whole fetch. */
  lemma FetchDoesNotRetry(first: seq<Try>, triesAt: nat -> seq<Try>, f: Failure)
    requires first != [] && Run(first[0]).promise == Rejected(f)
    ensures Fetch(first, triesAt, false) == ReadFailed(f)
  {
  }
}
