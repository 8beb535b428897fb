/**
 Compilation of a clause tree into an n-out-of rule and a de-duplicated identity table,
 and the translator `FromString` that does both in one pass over the text.
 */
module GatePolicy {
  import opened Text
  import opened GateSyntax

  /** The identifier encoded in an `MSPPrincipal` of classification ROLE. */
  datatype Principal = Principal(role: nat, mspid: string)

  datatype Rule =
    | SignedBy(signedBy: nat)
    | NOutOf(n: nat, rules: seq<Rule>)

  /** Every builder leaves the version at its default of 0. */
  datatype Envelope = Envelope(version: int, rule: Rule, identities: seq<Principal>)

  /** Failing to match the outer gate is a thrown `TypeError`. */
  datatype Outcome = Built(envelope: Envelope) | Throws

  /** `MSPRoleTypeInverse` */
  function RoleType(r: Role): nat {
    match r
    case MEMBER => 0
    case ADMIN => 1
    case CLIENT => 2
    case PEER => 3
    case ORDERER => 4
  }

  function PrincipalOf(mspid: string, role: Role): Principal { Principal(RoleType(role), mspid) }

  // ----- Meaning

  /** A set of principals satisfies a rule whose references are read through the table. */
  predicate Satisfied(rule: Rule, table: seq<Principal>, signers: set<Principal>)
    decreases rule, 1
  {
    match rule
    case SignedBy(i) => i < |table| && table[i] in signers
    case NOutOf(n, rules) => CountSatisfied(rules, table, signers) >= n
  }

  function CountSatisfied(rules: seq<Rule>, table: seq<Principal>, signers: set<Principal>): (k: nat)
    ensures k <= |rules|
    decreases rules, 0
  {
    if rules == [] then 0
    else
      (if Satisfied(rules[0], table, signers) then 1 else 0) + CountSatisfied(rules[1..], table, signers)
  }

  /** A set of principals satisfies a clause: AND asks for all arguments, OR for some. */
  predicate Holds(c: Clause, signers: set<Principal>) {
    match c
    case RoleClause(mspid, role) => PrincipalOf(mspid, role) in signers
    case GateClause(AND, subs) => forall i | 0 <= i < |subs| :: Holds(subs[i], signers)
    case GateClause(OR, subs) => exists i | 0 <= i < |subs| :: Holds(subs[i], signers)
  }

  // ----- One pass: rules and table together

  function IndexOf(table: seq<Principal>, p: Principal): (i: nat)
    requires p in table
    ensures i < |table| && table[i] == p
    ensures forall k | 0 <= k < i :: table[k] != p
  {
    if table[0] == p then 0 else 1 + IndexOf(table[1..], p)
  }

  datatype Compiled = Compiled(rule: Rule, table: seq<Principal>)
  datatype CompiledAll = CompiledAll(rules: seq<Rule>, table: seq<Principal>)

  function GateRule(gate: Gate, rules: seq<Rule>): Rule {
    match gate
    case OR => NOutOf(1, rules)
    case AND => NOutOf(|rules|, rules)
  }

  function Compile(c: Clause, table: seq<Principal>): Compiled
    decreases c, 1
  {
    match c
    case RoleClause(mspid, role) =>
      var p := PrincipalOf(mspid, role);
      if p in table then Compiled(SignedBy(IndexOf(table, p)), table)
      else Compiled(SignedBy(|table|), table + [p])
    case GateClause(gate, subs) =>
      var all := CompileAll(subs, table);
      Compiled(GateRule(gate, all.rules), all.table)
  }

  function CompileAll(cs: seq<Clause>, table: seq<Principal>): (r: CompiledAll)
    ensures |r.rules| == |cs|
    decreases cs, 0
  {
    if cs == [] then CompiledAll([], table)
    else
      var first := Compile(cs[0], table);
      var rest := CompileAll(cs[1..], first.table);
      CompiledAll([first.rule] + rest.rules, rest.table)
  }

  // ----- Two passes: first the principals, then the rule

  /** The principals of a clause from left to right. */
  function Leaves(c: Clause): seq<Principal>
    decreases c, 1
  {
    match c
    case RoleClause(mspid, role) => [PrincipalOf(mspid, role)]
    case GateClause(_, subs) => LeavesAll(subs)
  }

  function LeavesAll(cs: seq<Clause>): seq<Principal>
    decreases cs, 0
  {
    if cs == [] then [] else Leaves(cs[0]) + LeavesAll(cs[1..])
  }

  /** The elements of `ps` without repetitions, in order of first occurrence, after those of `seen`. */
  function Distinct(seen: seq<Principal>, ps: seq<Principal>): (r: seq<Principal>)
    ensures seen <= r
    ensures forall p :: p in r <==> p in seen || p in ps
    decreases |ps|
  {
    if ps == [] then seen
    else
      assert ps == [ps[0]] + ps[1..];
      Distinct(if ps[0] in seen then seen else seen + [ps[0]], ps[1..])
  }

  predicate NoRepeats(ps: seq<Principal>) {
    forall i, j | 0 <= i < j < |ps| :: ps[i] != ps[j]
  }

  /** The rule of a clause when every principal already has its index. */
  function Resolve(c: Clause, table: seq<Principal>): Rule
    requires forall p | p in Leaves(c) :: p in table
    decreases c, 1
  {
    match c
    case RoleClause(mspid, role) => SignedBy(IndexOf(table, PrincipalOf(mspid, role)))
    case GateClause(gate, subs) => GateRule(gate, ResolveAll(subs, table))
  }

  function ResolveAll(cs: seq<Clause>, table: seq<Principal>): seq<Rule>
    requires forall p | p in LeavesAll(cs) :: p in table
    decreases cs, 0
  {
    if cs == [] then [] else [Resolve(cs[0], table)] + ResolveAll(cs[1..], table)
  }

  lemma {:induction false} DistinctAppend(seen: seq<Principal>, a: seq<Principal>, b: seq<Principal>)
    ensures Distinct(seen, a + b) == Distinct(Distinct(seen, a), b)
    decreases |a|
  {
    if a == [] {
      assert a + b == b;
    } else {
      assert (a + b)[1..] == a[1..] + b;
      DistinctAppend(if a[0] in seen then seen else seen + [a[0]], a[1..], b);
    }
  }

  lemma {:induction false} DistinctNoRepeats(seen: seq<Principal>, ps: seq<Principal>)
    requires NoRepeats(seen)
    ensures NoRepeats(Distinct(seen, ps))
    decreases |ps|
  {
    if ps != [] {
      DistinctNoRepeats(if ps[0] in seen then seen else seen + [ps[0]], ps[1..]);
    }
  }

  lemma IndexInExtension(table: seq<Principal>, bigger: seq<Principal>, p: Principal)
    requires p in table && table <= bigger
    ensures p in bigger && IndexOf(bigger, p) == IndexOf(table, p)
  {
    assert bigger[IndexOf(table, p)] == p;
  }

  /** The single pass with its growing table equals collecting the table first. */
  lemma {:induction false} OnePassIsTwoPass(c: Clause, table: seq<Principal>, final: seq<Principal>)
    requires Distinct(table, Leaves(c)) <= final
    ensures Compile(c, table).table == Distinct(table, Leaves(c))
    ensures forall p | p in Leaves(c) :: p in final
    ensures Compile(c, table).rule == Resolve(c, final)
    decreases c, 1
  {
    forall p | p in Leaves(c) ensures p in final {
      assert p in Distinct(table, Leaves(c));
    }
    match c
    case RoleClause(mspid, role) =>
      var p := PrincipalOf(mspid, role);
      var grown := if p in table then table else table + [p];
      assert Leaves(c)[1..] == [];
      assert Distinct(table, Leaves(c)) == grown;
      IndexInExtension(grown, final, p);
      if p !in table { LastIndex(table, p); }
    case GateClause(gate, subs) =>
      OnePassIsTwoPassAll(subs, table, final);
  }

  lemma LastIndex(table: seq<Principal>, p: Principal)
    requires p !in table
    ensures IndexOf(table + [p], p) == |table|
  {
    assert forall k | 0 <= k < |table| :: (table + [p])[k] == table[k];
  }

  lemma {:induction false} OnePassIsTwoPassAll(cs: seq<Clause>, table: seq<Principal>, final: seq<Principal>)
    requires Distinct(table, LeavesAll(cs)) <= final
    ensures CompileAll(cs, table).table == Distinct(table, LeavesAll(cs))
    ensures forall p | p in LeavesAll(cs) :: p in final
    ensures CompileAll(cs, table).rules == ResolveAll(cs, final)
    decreases cs, 0
  {
    forall p | p in LeavesAll(cs) ensures p in final {
      assert p in Distinct(table, LeavesAll(cs));
    }
    if cs != [] {
      var next := Distinct(table, Leaves(cs[0]));
      DistinctAppend(table, Leaves(cs[0]), LeavesAll(cs[1..]));
      assert next <= Distinct(next, LeavesAll(cs[1..])) <= final;
      OnePassIsTwoPass(cs[0], table, final);
      OnePassIsTwoPassAll(cs[1..], next, final);
    }
  }

  // ----- Meaning preservation

  /** Counting satisfied rules decides both gates. */
  lemma {:induction false} CountDecides(rules: seq<Rule>, table: seq<Principal>, signers: set<Principal>)
    ensures CountSatisfied(rules, table, signers) >= |rules|
            <==> forall i | 0 <= i < |rules| :: Satisfied(rules[i], table, signers)
    ensures CountSatisfied(rules, table, signers) >= 1
            <==> exists i | 0 <= i < |rules| :: Satisfied(rules[i], table, signers)
  {
    if rules != [] {
      CountDecides(rules[1..], table, signers);
      assert forall i | 1 <= i < |rules| :: rules[i] == rules[1..][i - 1];
      if exists i | 0 <= i < |rules[1..]| :: Satisfied(rules[1..][i], table, signers) {
        var i :| 0 <= i < |rules[1..]| && Satisfied(rules[1..][i], table, signers);
        assert Satisfied(rules[i + 1], table, signers);
      }
    }
  }

  lemma {:induction false} ResolveAllAt(cs: seq<Clause>, table: seq<Principal>)
    requires forall p | p in LeavesAll(cs) :: p in table
    ensures |ResolveAll(cs, table)| == |cs|
    ensures forall i | 0 <= i < |cs| ::
              (forall p | p in Leaves(cs[i]) :: p in table) && ResolveAll(cs, table)[i] == Resolve(cs[i], table)
  {
    if cs != [] {
      ResolveAllAt(cs[1..], table);
      assert forall i | 1 <= i < |cs| :: cs[i] == cs[1..][i - 1];
    }
  }

  /** Reading the resolved rule through the table gives the meaning of the clause. */
  lemma {:induction false} ResolvedMeaning(c: Clause, table: seq<Principal>, signers: set<Principal>)
    requires forall p | p in Leaves(c) :: p in table
    ensures Satisfied(Resolve(c, table), table, signers) <==> Holds(c, signers)
  {
    if c.GateClause? {
      var rules := ResolveAll(c.subs, table);
      ResolveAllAt(c.subs, table);
      CountDecides(rules, table, signers);
      forall i | 0 <= i < |c.subs|
        ensures Satisfied(rules[i], table, signers) <==> Holds(c.subs[i], signers)
      {
        ResolvedMeaning(c.subs[i], table, signers);
      }
    }
  }

  /** What `FromString` returns for a text. */
  function FromText(s: string): Outcome {
    match ParsePolicy(s)
    case None => Throws
    case Some(c) => var r := Compile(c, []); Built(Envelope(0, r.rule, r.table))
  }

  /** The envelope of an accepted text, by the two-pass reading. */
  function TwoPass(c: Clause): Envelope {
    var table := Distinct([], Leaves(c));
    Envelope(0, Resolve(c, table), table)
  }

  lemma TextIsTwoPass(s: string)
    requires ParsePolicy(s).Some?
    ensures FromText(s) == Built(TwoPass(ParsePolicy(s).value))
  {
    var c := ParsePolicy(s).value;
    OnePassIsTwoPass(c, [], Distinct([], Leaves(c)));
  }

  /**
   Meaning preservation: for every accepted text, the built rule read through its identity table
   is satisfied by exactly the sets of principals that satisfy the clause tree of the text.
   */
  lemma MeaningPreserved(s: string, signers: set<Principal>)
    requires ParsePolicy(s).Some?
    ensures FromText(s).Built?
    ensures var e := FromText(s).envelope;
            Satisfied(e.rule, e.identities, signers) <==> Holds(ParsePolicy(s).value, signers)
  {
    var c := ParsePolicy(s).value;
    var table := Distinct([], Leaves(c));
    OnePassIsTwoPass(c, [], table);
    ResolvedMeaning(c, table, signers);
  }

  // ----- The identity table

  /** The table references of a rule from left to right. */
  function References(rule: Rule): seq<nat>
    decreases rule, 1
  {
    match rule
    case SignedBy(i) => [i]
    case NOutOf(_, rules) => ReferencesAll(rules)
  }

  function ReferencesAll(rules: seq<Rule>): seq<nat>
    decreases rules, 0
  {
    if rules == [] then [] else References(rules[0]) + ReferencesAll(rules[1..])
  }

  /** The references of a resolved rule, read through the table, are the leaves of its clause. */
  predicate Reads(refs: seq<nat>, table: seq<Principal>, leaves: seq<Principal>) {
    |refs| == |leaves| && forall k | 0 <= k < |refs| :: refs[k] < |table| && table[refs[k]] == leaves[k]
  }

  lemma {:induction false} ReferencesRead(c: Clause, table: seq<Principal>)
    requires forall p | p in Leaves(c) :: p in table
    ensures Reads(References(Resolve(c, table)), table, Leaves(c))
    decreases c, 1
  {
    if c.GateClause? {
      ReferencesReadAll(c.subs, table);
    }
  }

  lemma {:induction false} ReferencesReadAll(cs: seq<Clause>, table: seq<Principal>)
    requires forall p | p in LeavesAll(cs) :: p in table
    ensures Reads(ReferencesAll(ResolveAll(cs, table)), table, LeavesAll(cs))
    decreases cs, 0
  {
    if cs != [] {
      ReferencesRead(cs[0], table);
      ReferencesReadAll(cs[1..], table);
      var rules := ResolveAll(cs, table);
      assert rules[1..] == ResolveAll(cs[1..], table);
      ReadsAppend(References(rules[0]), ReferencesAll(rules[1..]), table, Leaves(cs[0]), LeavesAll(cs[1..]));
    }
  }

  lemma ReadsAppend(r: seq<nat>, r': seq<nat>, table: seq<Principal>, l: seq<Principal>, l': seq<Principal>)
    requires Reads(r, table, l) && Reads(r', table, l')
    ensures Reads(r + r', table, l + l')
  {
  }

  /** The table lists its entries in the order in which they first occur. */
  lemma {:induction false} OrderInDistinct(all: seq<Principal>, i: nat, j: nat)
    requires i < j < |Distinct([], all)|
    ensures var table := Distinct([], all);
            table[i] in all && table[j] in all && IndexOf(all, table[i]) < IndexOf(all, table[j])
    decreases |all|
  {
    if all != [] {
      var front := all[..|all| - 1];
      var last := all[|all| - 1];
      assert all == front + [last];
      if j < |Distinct([], front)| {
        OrderInDistinct(front, i, j);
      }
      OrderStep(front, last, i, j);
    }
  }

  lemma OrderStep(front: seq<Principal>, last: Principal, i: nat, j: nat)
    requires i < j < |Distinct([], front + [last])|
    requires var small := Distinct([], front);
             j < |small| ==>
                small[i] in front && small[j] in front && IndexOf(front, small[i]) < IndexOf(front, small[j])
    ensures var all := front + [last]; var table := Distinct([], all);
            table[i] in all && table[j] in all && IndexOf(all, table[i]) < IndexOf(all, table[j])
  {
    var small, all := Distinct([], front), front + [last];
    TableStep(front, last, i, j);
    if j < |small| {
      OrderExtends(front, all, small[i], small[j]);
    } else {
      OrderOfLast(front, last, small[i]);
    }
  }

  /** Two entries of a table, told from the table without the last principal. */
  lemma TableStep(front: seq<Principal>, last: Principal, i: nat, j: nat)
    requires i < j < |Distinct([], front + [last])|
    ensures var small := Distinct([], front); var table := Distinct([], front + [last]);
            && i < |small| && table[i] == small[i] && small[i] in front
            && if j < |small| then table[j] == small[j] else table[j] == last && last !in front
  {
    DistinctLast(front, last);
    var small := Distinct([], front);
    assert small[i] in small;
  }

  lemma OrderExtends(front: seq<Principal>, all: seq<Principal>, p: Principal, q: Principal)
    requires front <= all && p in front && q in front && IndexOf(front, p) < IndexOf(front, q)
    ensures p in all && q in all && IndexOf(all, p) < IndexOf(all, q)
  {
    IndexInExtension(front, all, p);
    IndexInExtension(front, all, q);
  }

  lemma OrderOfLast(front: seq<Principal>, last: Principal, p: Principal)
    requires p in front && last !in front
    ensures var all := front + [last]; p in all && last in all && IndexOf(all, p) < IndexOf(all, last)
  {
    IndexInExtension(front, front + [last], p);
    LastIndex(front, last);
  }

  lemma DistinctLast(front: seq<Principal>, last: Principal)
    ensures var small := Distinct([], front);
            Distinct([], front + [last]) == if last in small then small else small + [last]
  {
    DistinctAppend([], front, [last]);
    assert [last][1..] == [];
  }

  /** Every entry of the table is one of the references' targets. */
  lemma AllReferenced(table: seq<Principal>, leaves: seq<Principal>, refs: seq<nat>)
    requires NoRepeats(table) && Reads(refs, table, leaves)
    requires forall p | p in table :: p in leaves
    ensures forall i | 0 <= i < |table| :: i in refs
  {
    forall i | 0 <= i < |table| ensures i in refs {
      var k := IndexOf(leaves, table[i]);
      assert table[refs[k]] == table[i];
    }
  }

  /** References inside the table that spell out the leaves, distinct entries, all of them used. */
  predicate TableInvariant(e: Envelope, leaves: seq<Principal>) {
    && NoRepeats(e.identities)
    && Reads(References(e.rule), e.identities, leaves)
    && (forall i | 0 <= i < |e.identities| :: i in References(e.rule))
  }

  /** Entries stand in the order of their first occurrence. */
  predicate FirstOccurrenceOrder(table: seq<Principal>, leaves: seq<Principal>) {
    && (forall p | p in table :: p in leaves)
    && (forall i, j | 0 <= i < j < |table| :: IndexOf(leaves, table[i]) < IndexOf(leaves, table[j]))
  }

  /**
   The identity table of every accepted text: references stay inside it and spell out the
   principals of the text, its entries are pairwise distinct, each is referenced, and they stand
   in the order of their first occurrence.
   */
  lemma IdentityTable(s: string)
    requires ParsePolicy(s).Some?
    ensures FromText(s).Built?
    ensures TableInvariant(FromText(s).envelope, Leaves(ParsePolicy(s).value))
    ensures FirstOccurrenceOrder(FromText(s).envelope.identities, Leaves(ParsePolicy(s).value))
  {
    var c := ParsePolicy(s).value;
    var leaves := Leaves(c);
    var table := Distinct([], leaves);
    OnePassIsTwoPass(c, [], table);
    ReferencesRead(c, table);
    DistinctNoRepeats([], leaves);
    AllReferenced(table, leaves, References(Resolve(c, table)));
    forall i, j | 0 <= i < j < |table| ensures IndexOf(leaves, table[i]) < IndexOf(leaves, table[j]) {
      OrderInDistinct(leaves, i, j);
    }
  }

  // ----- The translator

  /** The state `FromString` shares between its two parsing closures. */
  class Translator {
    var identitiesIndexMap: map<string, nat>
    var identities: seq<Principal>
    ghost var roles: seq<RoleMatch>

    /** The index map holds exactly the keys of the table's entries, each at its index. */
    ghost predicate Valid()
      reads this
    {
      && |roles| == |identities|
      && (forall i | 0 <= i < |roles| ::
            && identities[i] == PrincipalOf(roles[i].mspid, roles[i].role)
            && RoleKey(roles[i].mspid, roles[i].role) in identitiesIndexMap
            && identitiesIndexMap[RoleKey(roles[i].mspid, roles[i].role)] == i)
      && (forall key | key in identitiesIndexMap ::
            && identitiesIndexMap[key] < |roles|
            && key == RoleKey(roles[identitiesIndexMap[key]].mspid, roles[identitiesIndexMap[key]].role))
    }

    constructor ()
      ensures Valid() && identities == []
    {
      identitiesIndexMap := map[];
      identities := [];
      roles := [];
    }

    /** Looking up the key is looking up the principal. */
    lemma KeyFindsPrincipal(mspid: string, role: Role)
      requires Valid()
      ensures RoleKey(mspid, role) in identitiesIndexMap <==> PrincipalOf(mspid, role) in identities
      ensures PrincipalOf(mspid, role) in identities ==>
                identitiesIndexMap[RoleKey(mspid, role)] == IndexOf(identities, PrincipalOf(mspid, role))
    {
      var key := RoleKey(mspid, role);
      var p := PrincipalOf(mspid, role);
      if key in identitiesIndexMap {
        var i := identitiesIndexMap[key];
        RoleKeyInjective(mspid, role, roles[i].mspid, roles[i].role);
        assert identities[i] == p;
      }
      if p in identities {
        var i := IndexOf(identities, p);
        assert roles[i].mspid == mspid && roles[i].role == role;
      }
    }

    method ParseRoleClause(mspid: string, role: Role) returns (rule: Rule)
      requires Valid()
      modifies this
      ensures Valid()
      ensures Compiled(rule, identities) == Compile(RoleClause(mspid, role), old(identities))
    {
      var key := RoleKey(mspid, role);
      KeyFindsPrincipal(mspid, role);
      if key !in identitiesIndexMap {
        var index := |identities|;
        identitiesIndexMap := identitiesIndexMap[key := index];
        identities := identities + [PrincipalOf(mspid, role)];
        roles := roles + [RoleMatch(mspid, role)];
      }
      rule := SignedBy(identitiesIndexMap[key]);
    }

    method ParseGateClause(gate: Gate, subClause: string) returns (rule: Rule)
      requires Valid()
      modifies this
      ensures Valid()
      ensures Compiled(rule, identities)
              == Compile(GateClause(gate, ParseItems(Split(subClause, ','))), old(identities))
      decreases |subClause|, 1
    {
      var subClauseItems := Split(subClause, ',');
      var rules: seq<Rule> := [];
      SplitWeight(subClause, ',');
      ghost var whole := Pending([], subClauseItems, identities);
      ghost var rest := subClauseItems;
      var i := 0;
      while i < |subClauseItems|
        invariant 0 <= i <= |subClauseItems| && Valid()
        invariant rest == subClauseItems[i..] && Weight(rest) <= |subClause| + 1
        invariant whole == Pending(rules, rest, identities)
      {
        var subClauseItem := subClauseItems[i];
        assert rest == [subClauseItem] + rest[1..];
        PendingStep(rules, subClauseItem, rest[1..], identities);
        i := i + 1;
        rest := rest[1..];
        var trimmed := Trim(subClauseItem);
        if trimmed == "" {
          BlankItem(subClauseItem);
          assert rules + [] == rules;
          continue;
        }
        var pushed := ParseSubClauseItem(subClauseItem);
        rules := rules + pushed;
      }
      PendingDone(gate, subClauseItems, old(identities), rules, identities);
      rule := GateRule(gate, rules);
    }

    /** The two pattern matches in the body of the loop: the rules they push. */
    method ParseSubClauseItem(subClauseItem: string) returns (pushed: seq<Rule>)
      requires Valid()
      modifies this
      ensures Valid()
      ensures CompiledAll(pushed, identities) == CompileItem(subClauseItem, old(identities))
      decreases |subClauseItem|, 0
    {
      pushed := [];
      var subResult := MatchGate(subClauseItem);
      if subResult.Some? {
        var subRule := ParseGateClause(subResult.value.gate, subResult.value.body);
        pushed := pushed + [subRule];
      }
      var roleResult := MatchRole(subClauseItem);
      if roleResult.Some? {
        GateIsNoRole(subClauseItem);
        var surRule := ParseRoleClause(roleResult.value.mspid, roleResult.value.role);
        pushed := pushed + [surRule];
      }
    }
  }

  /** The rules pushed so far, followed by those of the items still to come. */
  ghost function Pending(rules: seq<Rule>, items: seq<string>, table: seq<Principal>): CompiledAll {
    var rest := CompileAll(ParseItems(items), table);
    CompiledAll(rules + rest.rules, rest.table)
  }

  /** What one item pushes. */
  ghost function CompileItem(item: string, table: seq<Principal>): CompiledAll {
    match ParseItem(item)
    case None => CompiledAll([], table)
    case Some(c) => var r := Compile(c, table); CompiledAll([r.rule], r.table)
  }

  lemma PendingStep(rules: seq<Rule>, item: string, items: seq<string>, table: seq<Principal>)
    ensures Weight([item] + items) == |item| + 1 + Weight(items)
    ensures var one := CompileItem(item, table);
            Pending(rules, [item] + items, table) == Pending(rules + one.rules, items, one.table)
  {
    assert ([item] + items)[1..] == items;
    if ParseItem(item) == None {
      assert rules + [] == rules;
    } else {
      var c := ParseItem(item).value;
      var rest := ParseItems(items);
      assert ([c] + rest)[1..] == rest;
      var first := Compile(c, table);
      assert rules + ([first.rule] + CompileAll(rest, first.table).rules)
          == (rules + [first.rule]) + CompileAll(rest, first.table).rules;
    }
  }

  lemma PendingDone(gate: Gate, items: seq<string>, table: seq<Principal>, rules: seq<Rule>, final: seq<Principal>)
    requires Pending([], items, table) == Pending(rules, [], final)
    ensures Compile(GateClause(gate, ParseItems(items)), table) == Compiled(GateRule(gate, rules), final)
  {
    var all := CompileAll(ParseItems(items), table);
    assert [] + all.rules == all.rules && rules + [] == rules;
  }

  lemma GateIsNoRole(item: string)
    requires MatchRole(item).Some?
    ensures MatchGate(item) == None
  {
    if MatchGate(item).Some? { GateEnds(item); }
  }

  /** An item that `trim` empties matches neither pattern, so skipping it changes nothing. */
  lemma BlankItem(item: string)
    requires Trim(item) == ""
    ensures ParseItem(item) == None
  {
    TrimExact(item);
    var a, b :| AllSpace(a) && AllSpace(b) && item == a + Trim(item) + b;
    assert item != "" ==> item[0] in item;
    BlankEndsMatchNothing(item);
  }

  method FromString(policyString: string) returns (r: Outcome)
    ensures r == FromText(policyString)
  {
    var result := MatchGate(policyString);
    if result.None? {
      return Throws;
    }
    var translator := new Translator();
    var rule := translator.ParseGateClause(result.value.gate, result.value.body);
    r := Built(Envelope(0, rule, translator.identities));
  }
}
