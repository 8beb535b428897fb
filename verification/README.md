# Verified model of the fabric-common client library

A Dafny 4.11 model of the parts of the library that decide something: which endorsement policy a
text stands for, which signatures, blocks, answers and events are accepted, and in which order the
steps of a transaction happen. `dafny verify dfyconfig.toml` checks all of it.

## What is modelled

| file | of the library |
|---|---|
| `Text.dfy`, `Numbers.dfy` | JavaScript `trim`, `split`, `join`; decimal numbers |
| `GateSyntax.dfy`, `GateLayout.dfy`, `GatePieces.dfy` | the text layer of `FromString`: its two patterns, the split at commas, the recursion; written policies, which of them it reads as written, and how it reads any of them |
| `GatePolicy.dfy`, `GateResidue.dfy`, `GateMeaning.dfy` | compilation to an n-out-of rule with a shared identity table, what accepted policies amount to, and when the built envelope means what is written |
| `PolicySpec.dfy` | the JSON front end and the envelope decoder |
| `SideDB.dfy` | the collection policy rebuilt from the organisations a policy names |
| `LowS.dfy`, `Ecdsa.dfy` | low-S normalisation in place, ECDSA verification over an abstract group (section 4.1.4 of SEC 1 version 2.0), signing modes |
| `X509Text.dfy` | PEM normalisation |
| `ChaincodeNames.dfy` | package ids and package file names |
| `FullBlock.dfy`, `Delivery.dfy`, `TxListener.dfy` | block trimming, the receive loop with its chain of predicates, waiting for a transaction |
| `OrdererDeliver.dfy`, `ConfigFetch.dfy` | the orderer deliver promise under any interleaving of events; the two-read configuration fetch over a growing ledger |
| `EventHub.dfy` | the event collectors |
| `ResultInterceptors.dfy`, `Lifecycle.dfy`, `Operations.dfy` | endorsement handlers, the lifecycle proposal object over whole runs of calls, submit, approve and commit |

Exceptions, panics and promise rejections are values (`None`, `Throws`, `Panicked`, `Rejected`, ...).
Protobuf encoding is taken as a bijection, so messages are datatypes; hashing, the curve group,
the network and the event service are parameters.

## What the code does differently from what one would expect

The model follows the code. In each case below a lemma gives the exact condition under which the
expected law holds, and most have a concrete counterexample beside it.

- `FromString` splits at every comma and matches untrimmed items. Arguments with a blank beside
  them are dropped, so the documented `OR('Org1MSP.member', 'Org2MSP.member')` names Org1MSP only.
  Nested gates of two or more arguments are cut up into pieces: in each piece opening gates and
  closing parentheses are peeled off pairwise from the outside, and what then does not balance is
  dropped and leaves the gate around it empty (`WrittenReading`, for every accepted policy). So the
  first and last of several plain roles in a nested gate are lost and the ones between become arguments of
  the outer gate (`NestedGateIsCutUp`, `NestedGateLosesMeaning`), and with a gate as first argument
  the policy `OR(AND(OR('a.member'),'b.member'))` asks for nobody (`NobodyHasToSign`). MSP ids with a
  dash match the role pattern but make the gate pattern fail. `ReadsBackExactlyPlain` is the exact law
  for the tree, `MeaningKeptIffChecked` the one for the meaning of every accepted policy, and
  `MeaningKeptExactly` a direct condition where nested gates have one argument each;
  `BlankLosesOrganisation` shows the loss by a blank.
- The flat rebuild of a collection policy keeps the meaning only for rebuildable policies
  (`RebuildKeepsMeaningExactly`): not for `OR('org.admin')` (`AdminPolicyIsNotKept`).
- PEM normalisation is idempotent exactly when the body holds no fifteen dashes in a row
  (`IdempotentExactly`); with fifteen dashes it is not (`FifteenAreNotStable`).
- An `end` event clears the timer of `sendDeliver`, after which no timeout can settle its promise
  (`EndDisarmsTimeout`, `EndThenTimeout`); a block that arrives after resolution is pushed to the
  resolved array (`SharedArrayExact`, `LateBlockShows`).
- Waiting for a transaction on full blocks panics at a block `FromFullBlock` does not take, where
  waiting on filtered blocks goes on (`ListeningAgreesExactly`).
- `getChannelConfigFromOrderer` passes no waiting time, so it never retries (`FetchDoesNotRetry`).
- The result handler of a lifecycle proposal persists: after `approveForMyOrg`, after
  `queryChaincodeDefinition` with a name and after a failed `installChaincode`, later calls are
  judged with its exemptions (`CommitNeedsCleanHandler`, `QueryThenCommit`).
- `approve` sets the commit check to null and nothing restores it, so a later
  `commitChaincodeDefinition` on the same object does not check the orderer's answer
  (`CommitCheckedExactly`, `ApproveThenUncheckedCommit`).
- `replayTx` without an amount never resolves.

## Model

| member | source | states |
|---|---|---|
| `Text.LettersAndDigits` | nodejs/formatter/gatePolicy.js:12-13 | the letters and digits of the patterns, character by character |
| `Text.Blanks` | nodejs/formatter/path.js:28-30 | the blanks `trim` removes and `\s` matches, and the line terminators, code point by code point |
| `GateSyntax.MspidCharacters` | nodejs/formatter/gatePolicy.js:13 | an MSP id takes exactly the 64 characters letters, digits, dot and dash |
| `GateSyntax.BodyCharacters` | nodejs/formatter/gatePolicy.js:12 | the body of a gate takes these but the dash, and underscore, comma, parentheses, quote and blanks |
| `GateSyntax.GatePatternExact` | nodejs/formatter/gatePolicy.js:12 | the computed gate match is the only way the pattern can match: word, parentheses, non-empty body over its character class |
| `GateSyntax.RolePatternExact` | nodejs/formatter/gatePolicy.js:13 | a role item matches iff it is the quoted MSP id, a dot and a role; the role is what follows the last dot, so ids with dots survive |
| `GateSyntax.NoEmptyMspid` | nodejs/formatter/gatePolicy.js:13 | a role without an MSP id matches nothing |
| `GateSyntax.RoleKeyInjective` | nodejs/formatter/gatePolicy.js:51 | the text key of the identity table determines MSP id and role |
| `GateSyntax.AcceptedShape` | nodejs/formatter/gatePolicy.js:63-88 | in every accepted policy each nested gate has at most one argument |
| `GateSyntax.BlankEndsMatchNothing` | nodejs/formatter/gatePolicy.js:72-86 | an item that is blank or has a blank at either end is dropped |
| `GateLayout.ReadsBackExactlyPlain` | nodejs/formatter/gatePolicy.js:47-98 | print/parse law over all written policies of any depth and width: the text is read back as its tree iff it has no blanks, no dashes, a non-empty top gate and one argument in every nested gate |
| `GateLayout.AcceptedExactly` | nodejs/formatter/gatePolicy.js:63-68 | a written policy is accepted iff no blank stands around it, it has an argument and no MSP id at any depth holds a dash; else `FromString` throws |
| `GateLayout.ChainPolicyReading` | nodejs/formatter/gatePolicy.js:69-86 | a policy whose nested gates have one argument each is read argument by argument, at any depth: what has a blank beside it is dropped, and its gate kept without it |
| `GateLayout.FlatPolicyReading` | nodejs/formatter/gatePolicy.js:69-86 | in particular a flat policy is always accepted and read as if the arguments with blanks beside them were not there |
| `GatePieces.JoinPiecesAll` | nodejs/formatter/gatePolicy.js:69 | the text between the outer parentheses is the texts of the policy's pieces with commas between; a piece is some opening gates, at most one role and some closing parentheses, balanced or not |
| `GatePieces.PieceReading` | nodejs/formatter/gatePolicy.js:71-86 | an item that is such a piece is read by peeling gates and parentheses pairwise from the outside, up to a blank or an imbalance, which leaves the gate around it empty |
| `GatePieces.WrittenReading` | nodejs/formatter/gatePolicy.js:63-96 | how every accepted written policy is read, with any nesting, any number of arguments and blanks anywhere: its pieces one by one, as arguments of the outer gate |
| `GatePieces.NestedGateIsCutUp` | nodejs/formatter/gatePolicy.js:69-86 | in particular a nested gate of two or more plain roles loses its first and last one; the others become arguments of the outer gate |
| `GatePolicy.OnePassIsTwoPass` | nodejs/formatter/gatePolicy.js:47-105 | compiling with the growing shared table gives the same table and rule as collecting all principals first and resolving afterwards |
| `GatePolicy.MeaningPreserved` | nodejs/formatter/gatePolicy.js:47-105 | for every accepted text and every set of principals, the built n-out-of rule read through the table is satisfied iff the clause tree is, AND as all and OR as some |
| `GatePolicy.IdentityTable` | nodejs/formatter/gatePolicy.js:48-61 | every reference is inside the table and spells out the text's principals, entries are pairwise distinct, each is referenced, in order of first occurrence |
| `GatePolicy.CountDecides` | nodejs/formatter/types.js:227-239 | n-out-of with n the number of rules is AND, with n equal to 1 is OR |
| `GatePolicy.Translator.ParseRoleClause` | nodejs/formatter/gatePolicy.js:50-61 | reuses the index of a known key or appends a principal; index map and table stay consistent |
| `GatePolicy.Translator.ParseGateClause` | nodejs/formatter/gatePolicy.js:63-96 | rule and grown table are those of the clause tree of the text between the parentheses; the recursion terminates on shorter text |
| `GatePolicy.FromString` | nodejs/formatter/gatePolicy.js:47-105 | throws iff the outer gate does not match, else returns the envelope of the text's clause tree |
| `GateMeaning.ThrowsExactly` | nodejs/formatter/gatePolicy.js:63-68 | `FromString` throws iff the text is no gate word with parentheses around a non-empty body of the pattern's characters |
| `GateMeaning.WrittenThrowsExactly` | nodejs/formatter/gatePolicy.js:63-68 | so for a written policy: blanks around it, no argument, or a dash at any depth |
| `GateMeaning.PlainPolicyBuilds` | nodejs/formatter/gatePolicy.js:47-105 | a plain written policy builds exactly the envelope of its tree |
| `GateMeaning.PlainPolicyMeans` | nodejs/formatter/gatePolicy.js:47-105 | the envelope of a plain written policy is satisfied by the principals the policy asks for |
| `GateMeaning.RolesWritten` | nodejs/formatter/gatePolicy.js:5-11 | each role as texts write it and the number its principal carries |
| `GateMeaning.SingleBuilds` | nodejs/formatter/gatePolicy.js:47-105 | a gate over one role builds 1-of that principal |
| `GateMeaning.PairBuilds` | nodejs/formatter/gatePolicy.js:47-105 | a gate over two roles, without blanks, builds 1-of or 2-of them, one identity for each principal in order |
| `GateMeaning.OneOrgPolicy` | nodejs/formatter/SideDB.js:98 | the text `OR('Org1MSP.member')` and its envelope, all literal |
| `GateMeaning.TwoOrgsPolicy` | nodejs/formatter/SideDB.js:88 | the two-organisation text without the blank and its envelope, all literal |
| `GateMeaning.AdminAndPeerPolicy` | nodejs/formatter/gatePolicy.js:47-105 | an AND of an admin and a peer and its envelope, all literal |
| `GateMeaning.RepeatedClientPolicy` | nodejs/formatter/gatePolicy.js:48-61 | an AND that names one client twice and its envelope with one identity, all literal |
| `GateMeaning.MeaningKeptExactly` | nodejs/formatter/gatePolicy.js:69-96 | for policies of any width and depth with one argument in every nested gate, the built envelope means what is written, for all sets of principals, iff the blanks do no harm: every principal also stands in an argument without blanks, and no argument is left with an empty gate of the other kind |
| `GateMeaning.MeaningKeptIffChecked` | nodejs/formatter/gatePolicy.js:47-105 | for every accepted policy, nested gates of any number of arguments included, the same question is decided by evaluating the written tree on at most one set more than there are principals in the pieces that are read, without parsing its text |
| `GateMeaning.MoreSigners` | nodejs/formatter/gatePolicy.js:90-94 | meaning is monotone in the signers and depends on the named principals only |
| `GateMeaning.TwoOrgsText` | nodejs/formatter/SideDB.js:85-98 | the documented collection policy is the text with one blank after its comma |
| `GateMeaning.BlankLosesOrganisation` | nodejs/formatter/gatePolicy.js:72-86 | members of the second organisation of that text satisfy what is written but not what is built |
| `GateMeaning.NestedGateLosesMeaning` | nodejs/formatter/gatePolicy.js:69-86 | for a nested AND of three, the middle principal alone satisfies the built envelope and not the written policy |
| `GateMeaning.GateFirstText` | nodejs/formatter/gatePolicy.js:12 | the policy of the next row is the text `OR(AND(OR('a.member'),'b.member'))` |
| `GateMeaning.NobodyHasToSign` | nodejs/formatter/gatePolicy.js:69-86 | that policy is accepted and read as an OR of an empty AND, so the built envelope holds without any signer and the written policy does not |
| `Numbers.DecimalParses` | nodejs/formatter/policy.js:70-74 | the decimal form of a number parses back to it |
| `Numbers.ParsesToSelf` | nodejs/formatter/policy.js:70-74 | a digit string is the decimal form of its value iff it has no leading zero |
| `Numbers.DigitsWritten` | nodejs/formatter/policy.js:70-74 | the decimal forms of 0 to 9 and of 90 |
| `PolicySpec.KeyPatternExact` | nodejs/formatter/policy.js:70 | a key gives a number iff it is digits and `-of`, and then theirs |
| `PolicySpec.SpecAcceptedExactly` | nodejs/formatter/policy.js:60-80 | building throws iff some element, at any depth, has no such key |
| `PolicySpec.BuildsExactly` | nodejs/formatter/policy.js:38-58 | so does the whole builder, which else turns each identity into its principal, in order |
| `PolicySpec.JsonMeaningPreserved` | nodejs/formatter/policy.js:38-81 | for every JSON policy that builds and every set of principals, the envelope is satisfied iff the policy is, `n-of` asking for n of its elements |
| `PolicySpec.FrontEndsAgree` | nodejs/formatter/policy.js:38-81 | for every text `FromString` accepts, the JSON form of its tree builds the same envelope |
| `PolicySpec.SpecRoundTrip` | nodejs/formatter/policyProtoTranslator.js:37-55 | decoding a built rule returns the specification it was built from iff no key has a leading zero |
| `PolicySpec.DecodedParsesBack` | nodejs/formatter/policyProtoTranslator.js:37-55 | decoding any rule loses nothing: what it reads like builds the rule again |
| `PolicySpec.PrincipalRoundTrip` | nodejs/formatter/policyProtoTranslator.js:14-23 | a decoded principal returns its identity iff the role number is below 5; it always has its MSP id, and no role name from 5 on |
| `PolicySpec.EnvelopeRoundTrip` | nodejs/formatter/policyProtoTranslator.js:56-70 | building a JSON policy and decoding returns version 0, its tree and its identities, with the exact conditions |
| `PolicySpec.TextDecodesToItsJson` | nodejs/formatter/policyProtoTranslator.js:56-70 | decoding what `FromString` built shows the JSON policy of the same tree, identities included |
| `PolicySpec.WrittenRoleIsDecoded` | nodejs/formatter/constants.js:39-45 | the role written in lower case is the role name shown after decoding |
| `PolicySpec.DecodeSignaturePolicy` | nodejs/formatter/policyProtoTranslator.js:37-55 | the loop over sub-rules decodes each of them in order |
| `PolicySpec.DecodeSignaturePolicyEnvelope` | nodejs/formatter/policyProtoTranslator.js:56-70 | decodes the version, the rule and every identity |
| `SideDB.BuildCollectionConfig` | nodejs/formatter/SideDB.js:17-83 | defaults of maximum, flags and block-to-live, the flat member policy, and the endorsement policy by reference or by signature |
| `SideDB.FromStandard` | nodejs/formatter/SideDB.js:109-126 | one config per entry, in order, with the entry's counts and flags and the rebuilt policy; fails iff some policy text is not accepted |
| `SideDB.ConfigUnique` | nodejs/formatter/SideDB.js:17-83 | the two contracts above leave no choice: there is one config for an entry |
| `SideDB.DocumentedCollection` | nodejs/formatter/SideDB.js:96-103 | a documented entry and its config, all literal |
| `SideDB.CollectionDefaults` | nodejs/formatter/SideDB.js:27-35 | what is filled in for an entry that leaves out what it may |
| `SideDB.CollectionPolicyMeaning` | nodejs/formatter/SideDB.js:42-53 | the flat policy is satisfied iff some organisation's member signs |
| `SideDB.RebuildKeepsMeaningExactly` | nodejs/formatter/SideDB.js:109-125 | for every accepted text, the rebuild is satisfied by the same principal sets iff the tree is rebuildable, as OR policies of members are |
| `SideDB.OrOfMembersIsKept` | nodejs/formatter/SideDB.js:42-55 | the rebuild of any OR policy of `.member` roles, at any depth, is satisfied by the same sets of principals |
| `SideDB.AdminPolicyIsNotKept` | nodejs/formatter/SideDB.js:42-44 | for every organisation, `OR('org.admin')` is accepted, and its rebuild is satisfied by a member alone and not by the admin |
| `SideDB.RebuildIsIdentityExactly` | nodejs/formatter/SideDB.js:109-125 | the rebuild is the very same envelope iff the policy is flat with distinct members (under OR, or a single one) |
| `LowS.RecognisedOrdersAreOdd` | golang/tape.go:200-205 | the four recognised orders are odd and their halves are the table's |
| `LowS.OrdersWritten` | golang/tape.go:200-205 | each recognised order by its distance from its curve's power of two |
| `LowS.IsLowS` | golang/tape.go:208-215 | low iff at most half the order; an unknown curve is an error |
| `LowS.ToLowS` | golang/tape.go:217-232 | overwrites its argument by the normal form and returns it; the flag says whether the value changed; untouched on an unknown curve |
| `LowS.CanonicalForm` | golang/tape.go:217-232 | the normal form lies in [1, N>>1], is s or N-s, and is a fixed point |
| `LowS.SameNormalForm` | golang/tape.go:217-232 | two values normalise equally iff they are equal up to sign modulo N |
| `Ecdsa.NegatedInverse` | golang/tape.go:223-229 | the inverse of N-s is N minus the inverse of s |
| `Ecdsa.InverseUnique` | golang/tape.go:158-170 | verification does not depend on which inverse is taken |
| `Ecdsa.InverseExists` | golang/tape.go:158-170 | for a prime order every s below it has an inverse |
| `Ecdsa.VerifiesExactly` | golang/tape.go:158-170 | verification accepts exactly what the signing equation s k = e + r d gives: a signature verifies under the key of d iff some nonce k yields it |
| `Ecdsa.SomeSignatureVerifies` | golang/tape.go:158-170 | there is such a group, of three elements, and a signature that verifies in it with s and with N-s |
| `Ecdsa.LowSKeepsValidity` | golang/tape.go:158-170 | for every group, key, digest and signature, (r, s) verifies iff (r, low s) does |
| `Ecdsa.SignedIsLowAndValid` | golang/tape.go:158-170 | what `Sign` hands out is low and verifies iff the library's signature does |
| `Ecdsa.Crypto.Sign` | golang/tape.go:158-170 | keeps r and normalises s; errors iff signing fails or the curve is unknown |
| `Ecdsa.Crypto.DefaultMode` | golang/tape.go:145-148 | a message is hashed once when signed directly |
| `Ecdsa.Crypto.GatewayMode` | golang/tape.go:149-152 | a message is hashed once when its gateway digest is signed |
| `X509Text.DelimiterEndExact` | nodejs/formatter/path.js:20 | where a header or footer ends is determined by where it starts, whatever is greedy or lazy |
| `X509Text.PatternExact` | nodejs/formatter/path.js:20-24 | the match exists iff any does, is the leftmost, and has the last possible footer |
| `X509Text.AcceptedExactly` | nodejs/formatter/path.js:20-24 | a text is accepted iff the pattern matches somewhere in it |
| `X509Text.SomeDelimiters` | nodejs/formatter/path.js:20 | literal headers and footers that match, with and without blanks before the word |
| `X509Text.NoDelimiters` | nodejs/formatter/path.js:20 | a header without a label, or with a dash in it, does not match |
| `X509Text.NormalizeX509` | nodejs/formatter/path.js:19-40 | the step-by-step rewriting computes the normalised text, or throws |
| `X509Text.NormalizedShape` | nodejs/formatter/path.js:26-38 | the output is header, trimmed body and footer on their own lines, only the body being broken |
| `X509Text.BlanksAroundBody` | nodejs/formatter/path.js:26-34 | whatever blanks stand around the body and after the footer, the same lines come out |
| `X509Text.LineEndsDoNotMatter` | nodejs/formatter/path.js:26-34 | in particular CRLF, LF or no line ends at all give the same output |
| `X509Text.RunExact` | nodejs/formatter/path.js:37 | the search for a run of n dashes succeeds iff n characters in a row are dashes |
| `X509Text.FifteenLeavesTen` | nodejs/formatter/path.js:37-38 | after breaking, ten dashes in a row remain iff there were fifteen |
| `X509Text.IdempotentExactly` | nodejs/formatter/path.js:19-40 | the output is always accepted again, and normalising it changes nothing iff the body has no run of fifteen dashes |
| `X509Text.FifteenAreNotStable` | nodejs/formatter/path.js:37-38 | between any header and footer, fifteen dashes are broken once by the first pass and once more by the second |
| `ChaincodeNames.DigestExact` | nodejs/formatter/chaincode.js:18-21 | a digest is 64 characters from 0-9 and a-f |
| `ChaincodeNames.FilePatternExact` | nodejs/formatter/chaincode.js:18-21 | a file name matches iff it is label, dot, 64 hex digits and extension; dots and hex in the label do no harm |
| `ChaincodeNames.ParseTextExact` | nodejs/formatter/chaincode.js:1-4 | an id parses to its parts iff neither holds a colon |
| `ChaincodeNames.ColonsDecide` | nodejs/formatter/chaincode.js:1-4 | without a colon the id is all name and the hash undefined; a second colon ends the hash |
| `ChaincodeNames.PackageNamingRoundTrip` | nodejs/fabric-dockerode.js:102 | id and stored file both read back as label and hash iff the label is non-empty without colons and line breaks and the hash is a digest |
| `FullBlock.ParseTransaction` | golang/proto/tx.go:27-116 | dispatch on the header type; an endorser transaction has exactly one action; everything else panics |
| `FullBlock.ParsesExactly` | golang/proto/tx.go:27-116 | the three kinds by the numbers of their header types, and what is taken from each; nothing else parses |
| `FullBlock.FromFullBlock` | golang/proto/block.go:34-56 | panics iff codes or transactions are missing or bad; else code i belongs to transaction i |
| `FullBlock.TrimmedUnique` | golang/proto/block.go:26-56 | there is only one such trimmed block |
| `FullBlock.CodesByPosition` | golang/proto/block.go:34-56 | transaction i of a block with metadata [signatures, last config, codes, ...] gets codes[i] |
| `FullBlock.WellFormedExactly` | golang/proto/block.go:34-56 | `FromFullBlock` takes a block iff the third metadata entry has a code for every transaction and every transaction parses |
| `Delivery.TranslationKeepsAll` | golang/event/eventer.go:79-93 | beside `ReceiveExact`: translating a response keeps its kind and content |
| `Delivery.ChainExact` | golang/event/eventer.go:38-46 | the chain goes on iff all predicates do, and otherwise answers like the first that does not |
| `Delivery.StatusDecidesFirst` | golang/event/eventer.go:22-36 | a corollary of `ChainExact`: a status response is decided by the default predicate, before all others |
| `Delivery.Eventer.ContinueBuilder` | golang/event/eventer.go:22-47 | puts the default predicate in front |
| `Delivery.Eventer.Continue` | golang/event/eventer.go:38-46 | the loop with early return computes the chain's answer |
| `Delivery.Eventer.SendRecv` | golang/event/eventer.go:65-103 | the receive loop equals its recursive specification, for every stream |
| `Delivery.ReceiveExact` | golang/event/eventer.go:65-103 | it returns a receipt and responses iff the stream goes on for some messages and then ends, without receipt, or the next message is stopped, with the receipt of the first stopping predicate; responses are exactly the translated messages |
| `Delivery.PanicsExactly` | golang/event/eventer.go:65-103 | it panics iff, after messages that go on, `Recv` fails or the first predicate that does not go on panics; without any predicate at the first message |
| `Delivery.WaitsExactly` | golang/event/eventer.go:65-103 | it is still waiting iff every message so far goes on, all of them kept |
| `TxListener.ScanForTx` | golang/event/tx.go:13-36 | the scan over a filtered or a full block answers like the installed predicate |
| `TxListener.TransactionListener.WaitForTx` | golang/event/tx.go:12-37 | installs the default and the scanning predicate |
| `TxListener.FilteredExactly` | golang/event/tx.go:16-22 | the filtered block in the place of a full or private one: id, type and code of each transaction, in order |
| `TxListener.ListeningAgreesExactly` | golang/event/tx.go:12-37 | for every stream a peer can filter, waiting on full and on filtered blocks ends the same way, with the same receipt, after the same number of responses, iff every block the filtered run took parses; else the full run panics |
| `TxListener.ListeningAgrees` | golang/event/tx.go:12-37 | in particular for every stream whose blocks all parse |
| `TxListener.CodeReceiptExact` | golang/event/tx.go:13-36 | on any stream, of full, private or filtered blocks, the wait returns a code iff some response holds the transaction, first with that id and of endorser type, with that code, and every response before passes by; the responses are those up to there |
| `OrdererDeliver.DeliverCall.constructor` | nodejs/admin/orderer.js:131-140 | a call starts pending, with its timer armed |
| `OrdererDeliver.DeliverCall.OnData` | nodejs/admin/orderer.js:141-168 | the data handler is a step of the state machine |
| `OrdererDeliver.DeliverCall.OnTimeout` | nodejs/admin/orderer.js:136-140 | the timer's callback is a step, and none when it is cleared |
| `OrdererDeliver.DeliverCall.OnError` | nodejs/admin/orderer.js:181-189 | the error handler is a step, renaming code 14 |
| `OrdererDeliver.DeliverCall.OnEnd` | nodejs/admin/orderer.js:174-179 | the end handler disarms the timer and cancels the stream; it settles nothing |
| `OrdererDeliver.PendingExactly` | nodejs/admin/orderer.js:131-193 | a call is pending, and its stream not ended, exactly until a settling event comes |
| `OrdererDeliver.SettledByFirst` | nodejs/admin/orderer.js:131-193 | the promise is that of the first settling event |
| `OrdererDeliver.ResolvesExactly` | nodejs/admin/orderer.js:141-162 | over every interleaving, it resolves with a value iff the first settling event is the status "SUCCESS" or 200 and the value is the blocks received before, in order |
| `OrdererDeliver.RejectsExactly` | nodejs/admin/orderer.js:136-189 | it rejects with a failure iff the first settling event is no success and the failure is that event's: the status, SYSTEM_ERROR, the stream's error with code 14 renamed, or the timeout |
| `OrdererDeliver.StreamClosedExactly` | nodejs/admin/orderer.js:136-189 | every settling event ends the stream once, every end event cancels it once |
| `OrdererDeliver.DeliverCall.Observed` | nodejs/admin/orderer.js:131-193 | array, stream and timer of the call itself after any events |
| `OrdererDeliver.DeliverCall.SettledExactly` | nodejs/admin/orderer.js:131-193 | the call's own promise is unsettled, resolved with the shared array, or rejected with a failure exactly as the first settling event says |
| `OrdererDeliver.NamedSuccess` | nodejs/admin/orderer.js:153-155 | one block and the status "SUCCESS" resolve with that block |
| `OrdererDeliver.SettledStays` | nodejs/admin/orderer.js:131-193 | a settled promise never changes, and its stream has been ended |
| `OrdererDeliver.SharedArrayExact` | nodejs/admin/orderer.js:133-155 | for every interleaving that resolves, what is read later from the resolved array is the value at resolution iff no block came after the resolving event |
| `OrdererDeliver.LateBlockShows` | nodejs/admin/orderer.js:144-155 | a success status and then a block: resolved with nothing, and the array holds the block |
| `OrdererDeliver.EndDisarmsTimeout` | nodejs/admin/orderer.js:174-179 | a call that is pending after an end event stays pending, whatever timeouts fire and blocks come, iff no status, unknown type or error comes |
| `OrdererDeliver.EndThenTimeout` | nodejs/admin/orderer.js:136-140 | an end and then a timeout leave the promise pending |
| `OrdererDeliver.OneBlockAnswer` | nodejs/admin/orderer.js:144-155 | a corollary of `ResolvesExactly` and `SettledStays`: one block and a success status resolve with just that block, whatever follows |
| `ConfigFetch.GetSpecificBlock` | nodejs/admin/signingIdentity.js:99-128 | the recursive retry equals its specification |
| `ConfigFetch.ReadExact` | nodejs/admin/signingIdentity.js:111-126 | a read gets blocks iff some try does after SERVICE_UNAVAILABLE answers only, none of them unless waiting was asked for; it fails iff a try fails after such answers and is not made again; else it is still trying |
| `ConfigFetch.AssertConfigBlock` | nodejs/formatter/protoTranslator.js:206-217 | passes iff the block holds exactly one transaction and it is a CONFIG |
| `ConfigFetch.GetChannelConfigFromOrderer` | nodejs/channel.js:54-70 | two reads without retries and the block check |
| `ConfigFetch.FetchExactly` | nodejs/channel.js:54-70 | all five endings of a fetch: the configuration, the failure of a read, unfinished, no block, no config block |
| `ConfigFetch.InForceIsLastConfig` | nodejs/formatter/protoTranslator.js:180-184 | applying a ledger block by block ends with the configuration of its last config block |
| `ConfigFetch.NothingInForce` | nodejs/formatter/protoTranslator.js:180-184 | and with none iff there is no config block |
| `ConfigFetch.FetchesConfigInForce` | nodejs/channel.js:54-70 | with correct LAST_CONFIG metadata the fetch returns the configuration in force at the newest block it first saw, whatever is appended meanwhile and however many retryable failures occur; the block check never fails |
| `ConfigFetch.ReturnsConfigExactly` | nodejs/channel.js:54-70 | under the same assumptions the fetch returns a configuration iff both reads succeed at some try, and then the one in force at the newest block the first read saw |
| `ConfigFetch.FetchDoesNotRetry` | nodejs/channel.js:59-65 | a corollary of `ReadExact`, for the call as it is made: one failure of the first read fails the fetch |
| `EventHub.WaitForBlocks` | nodejs/eventHub.js:87-112 | resolves with the block after k others iff no error comes up to it; rejects with an earlier error |
| `EventHub.WaitsForNumber` | nodejs/eventHub.js:87-112 | with consecutive numbers from h on, that is block h+k |
| `EventHub.WaitUntilBlock` | nodejs/eventHub.js:61-85 | resolves with the first block of the wanted number, unless an error comes first |
| `EventHub.ReplayTx` | nodejs/eventHub.js:145-167 | resolves with exactly the first max(1, n) transactions, in order, unless an error is among them |
| `EventHub.WaitForTxExactly` | nodejs/eventHub.js:118-143 | pending without an event; resolves iff the first event has status "VALID"; else rejects with its error or with the status in the message |
| `ResultInterceptors.SanCheck` | nodejs/admin/resultInterceptors.js:10-25 | throws on transport errors, else lists the answers that are not 200, in order |
| `ResultInterceptors.NotOkExactly` | nodejs/admin/resultInterceptors.js:18-24 | the list of such answers keeps the order of the responses |
| `ResultInterceptors.CheckEndorsements` | nodejs/admin/resultInterceptors.js:33-48 | passes exactly what the handler accepts and then modifies nothing; otherwise deletes the payload of exactly the failed answers and reports them by endorser |
| `ResultInterceptors.LastByUrlExact` | nodejs/admin/resultInterceptors.js:39-43 | the report has every endorser of a failed answer and no other, with the last of its failed answers |
| `ResultInterceptors.InstalledExactly` | nodejs/admin/lifecycleProposal.js:27-48 | the answers an install's handler lets pass, status and message written out |
| `ResultInterceptors.NoChangeExactly` | nodejs/admin/lifecycleProposal.js:52-62 | the answers an approve's handler lets pass, written out |
| `ResultInterceptors.NoDefinitionExactly` | nodejs/admin/lifecycleProposal.js:64-82 | the answers a query's handler lets pass, written out |
| `ResultInterceptors.NoNameExactly` | nodejs/admin/lifecycleProposal.js:64-67 | without a name the message to match holds the text `undefined` |
| `ResultInterceptors.CommitSuccessExactly` | nodejs/admin/resultInterceptors.js:56-65 | the one commit answer that is a success |
| `ResultInterceptors.EveryFilterExempts` | nodejs/admin/lifecycleProposal.js:27-82 | every filtering handler lets some answer pass that is no endorsement |
| `Lifecycle.LifecycleProposal.constructor` | nodejs/admin/lifecycleProposal.js:92-104 | starts with `EndorseALL`, the commit check and an empty run |
| `Lifecycle.LifecycleProposal.SetResultHandler` | nodejs/admin/proposal.js:52-60 | null stands for `EndorseALL` |
| `Lifecycle.LifecycleProposal.Send` | nodejs/admin/proposal.js:106-108 | returns normally iff there are no transport errors and the handler exempts every non-200 answer; then no answer is modified |
| `Lifecycle.LifecycleProposal.InstallChaincode` | nodejs/admin/lifecycleProposal.js:114-140 | result and flag, the handler being reset only when completed; afterwards the object still has the handler of its whole run of calls |
| `Lifecycle.LifecycleProposal.ApproveForMyOrg` | nodejs/admin/lifecycleProposal.js:230-265 | result and flag; afterwards the object still has the handler of its whole run of calls |
| `Lifecycle.LifecycleProposal.QueryChaincodeDefinition` | nodejs/admin/lifecycleProposal.js:311-357 | result and flag; afterwards the object still has the handler of its whole run of calls |
| `Lifecycle.LifecycleProposal.PlainCall` | nodejs/admin/lifecycleProposal.js:268-309 | calls that do not set the handler are judged by the one in force, and keep it |
| `Lifecycle.ResultExactly` | nodejs/admin/proposal.js:67-109 | every result a call can have, in the order in which they are decided |
| `Lifecycle.JudgesExactly` | nodejs/admin/lifecycleProposal.js:114-326 | the handler that judges each kind of call |
| `Lifecycle.AfterExchange` | nodejs/admin/lifecycleProposal.js:114-326 | the handler each kind of call leaves behind |
| `Lifecycle.FlagExactly` | nodejs/admin/lifecycleProposal.js:126-339 | the flag each kind of call sets on its result, if any |
| `Lifecycle.HandlerInForce` | nodejs/admin/lifecycleProposal.js:114-140 | after any run of calls the handler is the one the last assigning call left behind: what it set, or `EndorseALL` if that was a completed install |
| `Lifecycle.LifecycleProposal.HandlerOfObject` | nodejs/admin/lifecycleProposal.js:92-140 | so has the object itself, after any run of its calls |
| `Lifecycle.HandlerOfFreshObject` | nodejs/admin/lifecycleProposal.js:92-104 | it is `EndorseALL` until a call assigns one |
| `Lifecycle.CommitNeedsCleanHandler` | nodejs/admin/lifecycleProposal.js:295-309 | an accepted commit proposal is guaranteed to be endorsed by all iff the handler in force is `EndorseALL` |
| `Lifecycle.QueryThenCommit` | nodejs/admin/lifecycleProposal.js:295-326 | after a query by name, a commit proposal answered 404 "not defined" is accepted |
| `Lifecycle.ApprovedMeans` | nodejs/admin/lifecycleProposal.js:256-264 | an approve that is not "no change" has a 200 answer, and all others are 200 or "no change" |
| `Operations.Transaction.Submit` | nodejs/transaction.js:37-62 | reaches the orderer iff no errors occurred and all endorsers answered 200; returns iff besides the commit is SUCCESS with empty info and, if asked for, the first event is VALID; is unsettled iff it waits for that event; else throws; its effects in order |
| `Operations.CommitLoopExact` | nodejs/chaincodeOperation.js:134-151 | the commit loop ends well iff zero or more "no Raft leader" answers are followed by one success, throws iff such answers are followed by another one, else is retrying; and what it has sent |
| `Operations.ChaincodeOperation.Commit` | nodejs/chaincodeOperation.js:134-151 | the recursive retry equals its specification |
| `Operations.ChaincodeOperation.Approve` | nodejs/chaincodeOperation.js:117-163 | ending and effects in order; afterwards handler and commit check are those of the whole run on the object, the check switched off once committing starts |
| `Operations.ChaincodeOperation.CommitChaincodeDefinition` | nodejs/chaincodeOperation.js:173-189 | ending and effects in order, the answer being checked only if no earlier approve on the object got to committing |
| `Operations.ChaincodeOperation.Install` | nodejs/chaincodeOperation.js:37-44 | no result if every peer had the package; nothing goes to the orderer; handler and commit check remain those of the whole run |
| `Operations.ChaincodeOperation.CheckCommitReadiness` | nodejs/chaincodeOperation.js:165-171 | judged by the handler in force; nothing goes to the orderer; handler and commit check remain those of the whole run |
| `Operations.ChaincodeOperation.QueryChaincodeDefinition` | nodejs/chaincodeOperation.js:191-198 | no result if no peer has the definition; nothing goes to the orderer; handler and commit check remain those of the whole run |
| `Operations.ApproveReturnsExactly` | nodejs/chaincodeOperation.js:117-163 | a result iff something new was approved, then retries and one success, then a VALID event; nothing else is sent |
| `Operations.ApproveThrowsExactly` | nodejs/chaincodeOperation.js:117-163 | it throws iff proposing fails, an answer is neither the success nor tried again, or the first event is not VALID |
| `Operations.ApproveWaitsExactly` | nodejs/chaincodeOperation.js:134-163 | it is unsettled iff every answer is "no Raft leader" or the first event is awaited |
| `Operations.ApproveSkipsExactly` | nodejs/chaincodeOperation.js:127-132 | committing is skipped iff every answer says "unchanged content", vacuously without answers |
| `Operations.InstallSkipsExactly` | nodejs/chaincodeOperation.js:37-44 | an install gives no result iff every answer says "already installed", vacuously without answers |
| `Operations.QuerySkipsExactly` | nodejs/chaincodeOperation.js:191-198 | a query gives no result iff every answer says "not defined"; without a name only if there are none |
| `Operations.QueryEndsExactly` | nodejs/chaincodeOperation.js:165-198 | the calls that only ask endorsers throw iff they are not done, and never wait |
| `Operations.AssertsExactly` | nodejs/chaincodeOperation.js:153-154 | over any run, commit answers are checked iff no approve got to committing |
| `Operations.CommitCheckedExactly` | nodejs/chaincodeOperation.js:173-189 | a reported commit means SUCCESS with empty info iff no earlier approve on the object got to committing |
| `Operations.CommitEndsExactly` | nodejs/chaincodeOperation.js:173-189 | all the endings of a commit after any run: accepted proposal, an answer that is SUCCESS with empty info unless an earlier approve got to committing, and a first event that is VALID |
| `Operations.ChaincodeOperation.CheckOfObject` | nodejs/chaincodeOperation.js:153-154 | the object's commit check is on iff no approve of its run got to committing |
| `Operations.ApproveThenUncheckedCommit` | nodejs/chaincodeOperation.js:153-178 | after an approve, a refused commit is reported as done when a VALID event follows |

## Left out

- Policy evaluation by the network, with one signature counting for one principal only: satisfaction is by a set of principals.
- Numbers.ParseInt: integers are unbounded; `parseInt` loses precision above 2^53 and the message field is an int32.
- PolicySpec.DecodePrincipal: ROLE principals only; identity and organisation-unit principals have no builder in the library.
- PolicySpec.ParseSpec: an element is a `signedBy` or the array under its first key; values of other JavaScript types are not modelled.
- Ecdsa.Verifies: the digest is an integer; how a hash is cut to one, ASN.1 encoding and the curve equations are left to the abstract group and the caller.
- FullBlock.ParseTransaction: the checks on the content of an action (lifecycle arguments, read-write sets) are folded into one `accepted` flag.
- FullBlock.Block: a block always has a header, metadata and data; nil messages inside one are not modelled.
- Delivery.Receive: a stream is what it delivers in the end; blocking, contexts and connection handling are not modelled.
- OrdererDeliver.DeliverCall: exceptions inside handlers and events during the synchronous `write` are not modelled.
- ConfigFetch.Retryable: a status answer is taken to carry the type `status` and a null block, as the retry condition asks.
- ResultInterceptors.HasNoChange: answers arrive with a payload; the `TypeError` for a deleted one cannot arise in `send`.
- Lifecycle.LifecycleProposal.Send: building and signing of the proposal, offline signing and handlers other than those of the lifecycle.
- Lifecycle.LifecycleProposal.InstallChaincode: decoding of payloads is one outcome (it succeeds or throws); the decoded contents are not modelled.
- Operations.ChaincodeOperation.Approve: `assign`, which copies policy and collection settings into the proposal before the call, and the sleep between retries.
- EventHub.WaitForTx: which events reach a listener is up to the event service; the first one delivered decides.
- Genesis block fetch, discovery, channel updates, configuration builders, Docker, CA, HSM, file system and command-line wrappers, Java sources: I/O or plain record edits.
