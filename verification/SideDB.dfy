/** The collection policy that `FromStandard` rebuilds from the organisations a policy text names. */
module SideDB {
  import opened Text
  import opened GateSyntax
  import opened GatePolicy
  import opened GateResidue
  import opened GateLayout
  import GateMeaning

  /** The MSP ids of the parsed identities, one for each. */
  function MemberOrgs(identities: seq<Principal>): (orgs: seq<string>) {
    seq(|identities|, i requires 0 <= i < |identities| => identities[i].mspid)
  }

  /** `buildCollectionConfig`: any one member of the given organisations. */
  function CollectionPolicy(orgs: seq<string>): Envelope {
    Envelope(
      0,
      NOutOf(1, seq(|orgs|, i requires 0 <= i < |orgs| => SignedBy(i))),
      seq(|orgs|, i requires 0 <= i < |orgs| => Principal(RoleType(MEMBER), orgs[i])))
  }

  function Rebuilt(s: string): Envelope
    requires FromText(s).Built?
  {
    CollectionPolicy(MemberOrgs(FromText(s).envelope.identities))
  }

  /** An entry of `collections_config.json`; absent numbers and flags take defaults. */
  datatype CollectionItem = CollectionItem(
    name: string, policy: string, requiredPeerCount: nat, maxPeerCount: Option<nat>, blockToLive: Option<nat>,
    memberOnlyRead: Option<bool>, memberOnlyWrite: Option<bool>)

  /** The endorsement policy a caller may pass; an empty reference counts as absent. */
  datatype EndorsementPolicy = EndorsementPolicy(reference: string, signaturePolicy: Option<Envelope>)

  datatype ApplicationPolicy = Unset | ByReference(reference: string) | BySignature(policy: Envelope)

  datatype CollectionConfig = CollectionConfig(
    name: string, requiredPeerCount: nat, maximumPeerCount: nat, blockToLive: nat,
    memberOnlyRead: bool, memberOnlyWrite: bool, memberOrgsPolicy: Envelope,
    endorsementPolicy: Option<ApplicationPolicy>)

  /** A maximum that is absent or 0 is the required count, absent flags are on, and the policy is the flat one. */
  predicate Configures(c: CollectionConfig, item: CollectionItem, memberOrgs: seq<string>) {
    && c.name == item.name
    && c.requiredPeerCount == item.requiredPeerCount
    && c.maximumPeerCount == (if item.maxPeerCount in {None, Some(0)} then item.requiredPeerCount
                              else item.maxPeerCount.value)
    && c.blockToLive == (if item.blockToLive.Some? then item.blockToLive.value else 0)
    && (c.memberOnlyRead <==> item.memberOnlyRead != Some(false))
    && (c.memberOnlyWrite <==> item.memberOnlyWrite != Some(false))
    && c.memberOrgsPolicy == CollectionPolicy(memberOrgs)
  }

  /** An endorsement policy goes in by reference if it has one, else by its signature policy if it has one. */
  predicate Endorses(c: CollectionConfig, endorsement: Option<EndorsementPolicy>) {
    match endorsement
    case None => c.endorsementPolicy == None
    case Some(EndorsementPolicy(reference, policy)) =>
      && (c.endorsementPolicy == Some(ByReference(reference)) <==> reference != "")
      && (c.endorsementPolicy == Some(Unset) <==> reference == "" && policy == None)
      && (reference == "" && policy.Some? ==> c.endorsementPolicy == Some(BySignature(policy.value)))
  }

  method BuildCollectionConfig(item: CollectionItem, memberOrgs: seq<string>, endorsement: Option<EndorsementPolicy>)
    returns (c: CollectionConfig)
    ensures Configures(c, item, memberOrgs) && Endorses(c, endorsement)
  {
    var maximum := if item.maxPeerCount.Some? then item.maxPeerCount.value else 0;
    if maximum == 0 {
      maximum := item.requiredPeerCount;
    }
    var memberOnlyRead, memberOnlyWrite := true, true;
    if item.memberOnlyRead.Some? {
      memberOnlyRead := item.memberOnlyRead.value;
    }
    if item.memberOnlyWrite.Some? {
      memberOnlyWrite := item.memberOnlyWrite.value;
    }
    c := CollectionConfig(item.name, item.requiredPeerCount, maximum, 0, memberOnlyRead, memberOnlyWrite,
                          CollectionPolicy(memberOrgs), None);
    if item.blockToLive.Some? {
      c := c.(blockToLive := item.blockToLive.value);
    }
    if endorsement.Some? {
      var application := Unset;
      if endorsement.value.reference != "" {
        application := ByReference(endorsement.value.reference);
      } else if endorsement.value.signaturePolicy.Some? {
        application := BySignature(endorsement.value.signaturePolicy.value);
      }
      c := c.(endorsementPolicy := Some(application));
    }
  }

  /** The config of an entry whose policy text is accepted: its own settings and the rebuilt policy. */
  predicate Translates(c: CollectionConfig, item: CollectionItem) {
    && FromText(item.policy).Built?
    && Configures(c, item, MemberOrgs(FromText(item.policy).envelope.identities))
    && c.memberOrgsPolicy == Rebuilt(item.policy)
    && c.endorsementPolicy == None
  }

  /** `FromStandard`: one config for each entry, in order, or a throw if some policy text is not accepted. */
  method FromStandard(items: seq<CollectionItem>) returns (configs: Option<seq<CollectionConfig>>)
    ensures configs.Some? <==> forall i | 0 <= i < |items| :: ParsePolicy(items[i].policy).Some?
    ensures configs.Some? ==>
              |configs.value| == |items| && forall i | 0 <= i < |items| :: Translates(configs.value[i], items[i])
  {
    var built: seq<CollectionConfig> := [];
    for i := 0 to |items|
      invariant |built| == i
      invariant forall j | 0 <= j < i :: Translates(built[j], items[j])
    {
      var parsed := FromString(items[i].policy);
      if parsed.Throws? {
        return None;
      }
      var config := BuildCollectionConfig(items[i], MemberOrgs(parsed.envelope.identities), None);
      built := built + [config];
    }
    return Some(built);
  }

  /** There is one config for an entry, its organisations and its endorsement policy. */
  lemma ConfigUnique(
      c: CollectionConfig, other: CollectionConfig, item: CollectionItem, memberOrgs: seq<string>,
      endorsement: Option<EndorsementPolicy>)
    requires Configures(c, item, memberOrgs) && Endorses(c, endorsement)
    requires Configures(other, item, memberOrgs) && Endorses(other, endorsement)
    ensures c == other
  {
  }

  /** An entry of the documentation and its config: the flag it leaves out is on. */
  lemma DocumentedCollection(c: CollectionConfig, org1: string, text: string)
    requires org1 == "Org1MSP" && text == "OR('Org1MSP.member')"
    requires var item := CollectionItem("collectionMarblePrivateDetails", text, 0, Some(3), Some(3), Some(true), None);
             Translates(c, item)
    ensures c == CollectionConfig("collectionMarblePrivateDetails", 0, 3, 3, true, true,
                                  Envelope(0, NOutOf(1, [SignedBy(0)]), [Principal(0, org1)]), None)
  {
    GateMeaning.OneOrgPolicy(org1, text);
    assert MemberOrgs([Principal(0, org1)]) == [org1];
    OneOrgCollection([org1]);
  }

  lemma OneOrgCollection(orgs: seq<string>)
    requires |orgs| == 1
    ensures CollectionPolicy(orgs) == Envelope(0, NOutOf(1, [SignedBy(0)]), [Principal(0, orgs[0])])
  {
    var e := CollectionPolicy(orgs);
    assert |e.identities| == 1 && e.identities[0] == Principal(RoleType(MEMBER), orgs[0]);
    assert e.rule.rules[0] == SignedBy(0) && |e.rule.rules| == 1;
  }

  /** The defaults of what may be left out, and a maximum of 0. */
  lemma CollectionDefaults(c: CollectionConfig, name: string, required: nat, most: Option<nat>, memberOrgs: seq<string>)
    requires most == None || most == Some(0)
    requires Configures(c, CollectionItem(name, "", required, most, None, None, Some(false)), memberOrgs)
    requires Endorses(c, Some(EndorsementPolicy("", Some(CollectionPolicy([])))))
    ensures c == CollectionConfig(name, required, required, 0, true, false, CollectionPolicy(memberOrgs),
                                  Some(BySignature(CollectionPolicy([]))))
  {
  }

  /** The rebuilt policy asks for a member of some organisation the text names. */
  lemma CollectionPolicyMeaning(orgs: seq<string>, signers: set<Principal>)
    ensures var e := CollectionPolicy(orgs);
            Satisfied(e.rule, e.identities, signers)
            <==> exists i | 0 <= i < |orgs| :: Principal(RoleType(MEMBER), orgs[i]) in signers
  {
    var e := CollectionPolicy(orgs);
    CountDecides(e.rule.rules, e.identities, signers);
    forall i | 0 <= i < |orgs|
      ensures Satisfied(e.rule.rules[i], e.identities, signers) <==> Principal(RoleType(MEMBER), orgs[i]) in signers
    {
    }
  }

  // ----- When the rebuild keeps the meaning

  predicate IsMember(p: Principal) { p.role == RoleType(MEMBER) }

  /**
   When the flat rebuild may stand for the policy. An OR needs `.member` roles only and no
   argument that always holds; an AND needs all its arguments to come down to one and the same
   `.member`, unless one of them never holds, in which case it must name nobody.
   */
  predicate Rebuildable(c: Clause)
    requires c.GateClause? && AllAtMostUnary(c.subs)
  {
    var n := |c.subs|;
    match c.gate
    case OR =>
      forall i | 0 <= i < n ::
        ResidueOf(c.subs[i]) != Always && (ResidueOf(c.subs[i]).Leaf? ==> IsMember(ResidueOf(c.subs[i]).p))
    case AND =>
      if exists i | 0 <= i < n :: ResidueOf(c.subs[i]) == Never
      then forall i | 0 <= i < n :: !ResidueOf(c.subs[i]).Leaf?
      else
        && (exists i | 0 <= i < n :: ResidueOf(c.subs[i]).Leaf?)
        && (forall i | 0 <= i < n && ResidueOf(c.subs[i]).Leaf? ::
              && IsMember(ResidueOf(c.subs[i]).p)
              && forall j | 0 <= j < n && ResidueOf(c.subs[j]).Leaf? :: ResidueOf(c.subs[j]) == ResidueOf(c.subs[i]))
  }

  /** The meaning of the rebuild in terms of the arguments of the policy. */
  predicate SomeMember(c: Clause, signers: set<Principal>)
    requires c.GateClause? && AllAtMostUnary(c.subs)
  {
    exists i | 0 <= i < |c.subs| ::
      ResidueOf(c.subs[i]).Leaf? && Principal(RoleType(MEMBER), ResidueOf(c.subs[i]).p.mspid) in signers
  }

  lemma RebuiltMeaning(s: string, signers: set<Principal>)
    requires ParsePolicy(s).Some? && FromText(s).Built?
    ensures ParsePolicy(s).value.GateClause? && AllAtMostUnary(ParsePolicy(s).value.subs)
    ensures Satisfied(Rebuilt(s).rule, Rebuilt(s).identities, signers) <==> SomeMember(ParsePolicy(s).value, signers)
  {
    AcceptedShape(s);
    TextIsTwoPass(s);
    MembersMeaning(ParsePolicy(s).value, Distinct([], Leaves(ParsePolicy(s).value)), signers);
  }

  lemma MembersMeaning(c: Clause, table: seq<Principal>, signers: set<Principal>)
    requires c.GateClause? && AllAtMostUnary(c.subs) && forall p :: p in table <==> p in Leaves(c)
    ensures var e := CollectionPolicy(MemberOrgs(table));
            Satisfied(e.rule, e.identities, signers) <==> SomeMember(c, signers)
  {
    var orgs := MemberOrgs(table);
    CollectionPolicyMeaning(orgs, signers);
    if i :| 0 <= i < |orgs| && Principal(RoleType(MEMBER), orgs[i]) in signers {
      LeavesAreResidues(c.subs, table[i]);
      assert table[i] in table;
      var k :| 0 <= k < |c.subs| && ResidueOf(c.subs[k]) == Leaf(table[i]);
      assert SomeMember(c, signers);
    }
    if SomeMember(c, signers) {
      var i :| 0 <= i < |c.subs| && ResidueOf(c.subs[i]).Leaf?
            && Principal(RoleType(MEMBER), ResidueOf(c.subs[i]).p.mspid) in signers;
      var p := ResidueOf(c.subs[i]).p;
      LeavesAreResidues(c.subs, p);
      var k := IndexOf(table, p);
      assert orgs[k] == p.mspid && Principal(RoleType(MEMBER), orgs[k]) in signers;
    }
  }

  lemma RebuildableAgrees(c: Clause, signers: set<Principal>)
    requires c.GateClause? && AllAtMostUnary(c.subs) && Rebuildable(c)
    ensures Holds(c, signers) <==> SomeMember(c, signers)
  {
    GateByResidues(c, signers);
  }

  /** A set of principals on which a policy that is not rebuildable and its rebuild disagree. */
  lemma Disagreement(c: Clause) returns (signers: set<Principal>)
    requires c.GateClause? && AllAtMostUnary(c.subs) && !Rebuildable(c)
    ensures Holds(c, signers) != SomeMember(c, signers)
  {
    var n := |c.subs|;
    if c.gate == OR {
      var i :| 0 <= i < n
            && (ResidueOf(c.subs[i]) == Always || (ResidueOf(c.subs[i]).Leaf? && !IsMember(ResidueOf(c.subs[i]).p)));
      signers := if ResidueOf(c.subs[i]) == Always then {} else {ResidueOf(c.subs[i]).p};
      GateByResidues(c, signers);
      assert ResidueHolds(ResidueOf(c.subs[i]), signers);
    } else if exists i | 0 <= i < n :: ResidueOf(c.subs[i]).Leaf? {
      var i := LeafToBlame(c);
      signers := {Principal(RoleType(MEMBER), ResidueOf(c.subs[i]).p.mspid)};
      GateByResidues(c, signers);
      assert SomeMember(c, signers);
    } else {
      signers := {};
      GateByResidues(c, signers);
    }
  }

  /** An argument of an AND whose organisation's member alone does not satisfy the AND. */
  lemma LeafToBlame(c: Clause) returns (i: nat)
    requires c.GateClause? && c.gate == AND && AllAtMostUnary(c.subs) && !Rebuildable(c)
    requires exists i | 0 <= i < |c.subs| :: ResidueOf(c.subs[i]).Leaf?
    ensures i < |c.subs| && ResidueOf(c.subs[i]).Leaf?
    ensures exists j | 0 <= j < |c.subs| ::
              !ResidueHolds(ResidueOf(c.subs[j]), {Principal(RoleType(MEMBER), ResidueOf(c.subs[i]).p.mspid)})
  {
    var n := |c.subs|;
    if j :| 0 <= j < n && ResidueOf(c.subs[j]) == Never {
      i :| 0 <= i < n && ResidueOf(c.subs[i]).Leaf?;
      assert !ResidueHolds(ResidueOf(c.subs[j]), {Principal(RoleType(MEMBER), ResidueOf(c.subs[i]).p.mspid)});
    } else if k :| 0 <= k < n && ResidueOf(c.subs[k]).Leaf? && !IsMember(ResidueOf(c.subs[k]).p) {
      i := k;
      assert !ResidueHolds(ResidueOf(c.subs[k]), {Principal(RoleType(MEMBER), ResidueOf(c.subs[i]).p.mspid)});
    } else {
      var k, j :| 0 <= k < n && 0 <= j < n && ResidueOf(c.subs[k]).Leaf? && ResidueOf(c.subs[j]).Leaf?
               && ResidueOf(c.subs[j]) != ResidueOf(c.subs[k]);
      i := k;
      assert !ResidueHolds(ResidueOf(c.subs[j]), {Principal(RoleType(MEMBER), ResidueOf(c.subs[i]).p.mspid)});
    }
  }

  /**
   The rebuilt collection policy is satisfied by the same sets of principals as the policy text
   exactly when the text's tree is rebuildable.
   */
  lemma RebuildKeepsMeaningExactly(s: string)
    requires ParsePolicy(s).Some?
    ensures FromText(s).Built?
    ensures ParsePolicy(s).value.GateClause? && AllAtMostUnary(ParsePolicy(s).value.subs)
    ensures (forall signers: set<Principal> ::
               Satisfied(Rebuilt(s).rule, Rebuilt(s).identities, signers)
               <==> Satisfied(FromText(s).envelope.rule, FromText(s).envelope.identities, signers))
            <==> Rebuildable(ParsePolicy(s).value)
  {
    AcceptedShape(s);
    var c := ParsePolicy(s).value;
    if Rebuildable(c) {
      forall signers: set<Principal>
        ensures Satisfied(Rebuilt(s).rule, Rebuilt(s).identities, signers)
                <==> Satisfied(FromText(s).envelope.rule, FromText(s).envelope.identities, signers)
      {
        MeaningPreserved(s, signers);
        RebuiltMeaning(s, signers);
        RebuildableAgrees(c, signers);
      }
    } else {
      var signers := Disagreement(c);
      MeaningPreserved(s, signers);
      RebuiltMeaning(s, signers);
    }
  }

  /** ORs of `.member` roles only, at any depth. */
  predicate OrOfMembers(c: Clause) {
    match c
    case RoleClause(_, role) => role == MEMBER
    case GateClause(gate, subs) => gate == OR && forall i | 0 <= i < |subs| :: OrOfMembers(subs[i])
  }

  lemma {:induction false} OrResidue(c: Clause)
    requires AtMostUnary(c) && OrOfMembers(c)
    ensures ResidueOf(c) != Always
    ensures ResidueOf(c).Leaf? ==> IsMember(ResidueOf(c).p)
  {
    if c.GateClause? && |c.subs| == 1 {
      OrResidue(c.subs[0]);
    }
  }

  /** Every OR policy of `.member` roles keeps its meaning, at any depth. */
  lemma OrOfMembersIsKept(s: string, signers: set<Principal>)
    requires ParsePolicy(s).Some? && OrOfMembers(ParsePolicy(s).value)
    ensures FromText(s).Built?
    ensures Satisfied(Rebuilt(s).rule, Rebuilt(s).identities, signers)
            <==> Satisfied(FromText(s).envelope.rule, FromText(s).envelope.identities, signers)
  {
    RebuildKeepsMeaningExactly(s);
    var c := ParsePolicy(s).value;
    forall i | 0 <= i < |c.subs|
      ensures ResidueOf(c.subs[i]) != Always && (ResidueOf(c.subs[i]).Leaf? ==> IsMember(ResidueOf(c.subs[i]).p))
    {
      OrResidue(c.subs[i]);
    }
    assert Rebuildable(c);
  }

  /**
   A policy of admins does not: the rebuild of `OR('org.admin')` is satisfied by any member of the
   organisation and not by its admin.
   */
  lemma AdminPolicyIsNotKept(org: string)
    requires Mspid(org) && '-' !in org
    ensures var s := "OR('" + org + ".admin')";
            && ParsePolicy(s) == Some(GateClause(OR, [RoleClause(org, ADMIN)]))
            && !Rebuildable(ParsePolicy(s).value)
            && FromText(s).Built?
            && var e := FromText(s).envelope; var r := Rebuilt(s);
               var admin, member := {PrincipalOf(org, ADMIN)}, {PrincipalOf(org, MEMBER)};
            && Satisfied(e.rule, e.identities, admin) && !Satisfied(r.rule, r.identities, admin)
            && Satisfied(r.rule, r.identities, member) && !Satisfied(e.rule, e.identities, member)
  {
    var s := "OR('" + org + ".admin')";
    var c := GateClause(OR, [RoleClause(org, ADMIN)]);
    AdminText(org);
    assert ResidueOf(c.subs[0]) == Leaf(PrincipalOf(org, ADMIN));
    forall signers: set<Principal>
      ensures FromText(s).Built?
      ensures Satisfied(FromText(s).envelope.rule, FromText(s).envelope.identities, signers)
              <==> PrincipalOf(org, ADMIN) in signers
      ensures Satisfied(Rebuilt(s).rule, Rebuilt(s).identities, signers) <==> PrincipalOf(org, MEMBER) in signers
    {
      MeaningPreserved(s, signers);
      RebuiltMeaning(s, signers);
      GateByResidues(c, signers);
    }
  }

  lemma AdminText(org: string)
    requires Mspid(org) && '-' !in org
    ensures ParsePolicy("OR('" + org + ".admin')") == Some(GateClause(OR, [RoleClause(org, ADMIN)]))
  {
    BareRole(org, ADMIN);
    SingleArgument(OR, Quoted(RoleKey(org, ADMIN)), RoleClause(org, ADMIN));
    AdminItem(org);
  }

  lemma SingleArgument(gate: Gate, item: string, c: Clause)
    requires ',' !in item && GateBody(item) && item != "" && ParseItem(item) == Some(c)
    ensures ParsePolicy(GateItem(gate, item)) == Some(GateClause(gate, [c]))
  {
    var items := Split(item, ',');
    SplitWhole(item, ',');
    ParseItemsAll(items, [c]);
    GateItemParses(gate, item);
  }

  lemma AdminItem(org: string)
    ensures GateItem(OR, Quoted(RoleKey(org, ADMIN))) == "OR('" + org + ".admin')"
  {
    assert GateItem(OR, Quoted(RoleKey(org, ADMIN))) == ("OR" + "(") + ("'" + (org + "." + "admin") + "'") + ")";
  }

  // ----- When the rebuild is the very same envelope

  /** Different `.member` roles, under an OR, or a single one under either gate. */
  predicate FlatDistinctMembers(c: Clause)
    requires c.GateClause?
  {
    && (c.gate == OR || |c.subs| == 1)
    && (forall i | 0 <= i < |c.subs| :: c.subs[i].RoleClause? && c.subs[i].role == MEMBER)
    && (forall i, j | 0 <= i < j < |c.subs| :: c.subs[i].mspid != c.subs[j].mspid)
  }

  lemma {:induction false} FlatLeaves(cs: seq<Clause>)
    requires forall i | 0 <= i < |cs| :: cs[i].RoleClause?
    ensures |LeavesAll(cs)| == |cs|
    ensures forall i | 0 <= i < |cs| :: LeavesAll(cs)[i] == PrincipalOf(cs[i].mspid, cs[i].role)
  {
    if cs != [] {
      FlatLeaves(cs[1..]);
    }
  }

  lemma {:induction false} DistinctOfNoRepeats(seen: seq<Principal>, ps: seq<Principal>)
    requires NoRepeats(seen + ps)
    ensures Distinct(seen, ps) == seen + ps
    decreases |ps|
  {
    if ps == [] {
      assert seen + ps == seen;
    } else {
      assert (seen + ps)[|seen|] == ps[0];
      assert ps[0] !in seen by {
        assert forall i | 0 <= i < |seen| :: (seen + ps)[i] == seen[i];
      }
      assert (seen + [ps[0]]) + ps[1..] == seen + ps;
      DistinctOfNoRepeats(seen + [ps[0]], ps[1..]);
    }
  }

  lemma FlatRules(cs: seq<Clause>, table: seq<Principal>)
    requires forall i | 0 <= i < |cs| :: cs[i].RoleClause?
    requires table == LeavesAll(cs) && NoRepeats(table)
    ensures ResolveAll(cs, table) == seq(|cs|, i requires 0 <= i < |cs| => SignedBy(i))
  {
    FlatLeaves(cs);
    ResolveAllAt(cs, table);
    forall i | 0 <= i < |cs| ensures ResolveAll(cs, table)[i] == SignedBy(i) {
      assert table[i] == PrincipalOf(cs[i].mspid, cs[i].role);
      OwnIndex(table, i);
    }
  }

  lemma OwnIndex(table: seq<Principal>, i: nat)
    requires NoRepeats(table) && i < |table|
    ensures IndexOf(table, table[i]) == i
  {
    var k := IndexOf(table, table[i]);
    assert k <= i && table[k] == table[i];
  }

  lemma FlatRebuildIsIdentical(c: Clause)
    requires c.GateClause? && FlatDistinctMembers(c)
    ensures CollectionPolicy(MemberOrgs(TwoPass(c).identities)) == TwoPass(c)
  {
    var leaves := LeavesAll(c.subs);
    FlatLeaves(c.subs);
    FlatTable(leaves);
    FlatRules(c.subs, leaves);
    MembersOnly(leaves);
  }

  lemma FlatTable(leaves: seq<Principal>)
    requires NoRepeats(leaves)
    ensures Distinct([], leaves) == leaves
  {
    assert [] + leaves == leaves;
    DistinctOfNoRepeats([], leaves);
  }

  lemma MembersOnly(table: seq<Principal>)
    requires forall i | 0 <= i < |table| :: IsMember(table[i])
    ensures CollectionPolicy(MemberOrgs(table)).identities == table
    ensures CollectionPolicy(MemberOrgs(table)).rule
            == NOutOf(1, seq(|table|, i requires 0 <= i < |table| => SignedBy(i)))
  {
  }

  lemma IdenticalRebuildIsFlat(c: Clause)
    requires c.GateClause? && CollectionPolicy(MemberOrgs(TwoPass(c).identities)) == TwoPass(c)
    ensures FlatDistinctMembers(c)
  {
    var table := TwoPass(c).identities;
    DistinctNoRepeats([], Leaves(c));
    ResolveAllAt(c.subs, table);
    assert CollectionPolicy(MemberOrgs(table)).rule.rules == ResolveAll(c.subs, table);
    assert |c.subs| == |table|;
    forall i | 0 <= i < |c.subs|
      ensures c.subs[i].RoleClause? && c.subs[i].role == MEMBER && c.subs[i].mspid == table[i].mspid
    {
      assert Resolve(c.subs[i], table) == SignedBy(i);
      assert CollectionPolicy(MemberOrgs(table)).identities[i] == table[i];
      assert table[i] == PrincipalOf(c.subs[i].mspid, c.subs[i].role);
      assert table[i] == Principal(RoleType(MEMBER), MemberOrgs(table)[i]);
    }
  }

  /** The rebuild is the parsed envelope itself exactly for flat policies of distinct members. */
  lemma RebuildIsIdentityExactly(s: string)
    requires ParsePolicy(s).Some?
    ensures FromText(s).Built? && ParsePolicy(s).value.GateClause?
    ensures Rebuilt(s) == FromText(s).envelope <==> FlatDistinctMembers(ParsePolicy(s).value)
  {
    AcceptedShape(s);
    TextIsTwoPass(s);
    var c := ParsePolicy(s).value;
    if FlatDistinctMembers(c) {
      FlatRebuildIsIdentical(c);
    }
    if Rebuilt(s) == FromText(s).envelope {
      IdenticalRebuildIsFlat(c);
    }
  }
}
