/**
 The second front end of the policy compiler, which takes a JSON `n-of` specification, and the
 decoder that turns a built envelope back into readable form.
 */
module PolicySpec {
  import opened Text
  import opened Numbers
  import opened GateSyntax
  import opened GatePolicy

  /** A policy element: `{signedBy}`, an object whose first key is `key`, or `{}`. */
  datatype Spec =
    | SignedByAt(index: nat)
    | Keyed(key: string, subs: seq<Spec>)
    | NoKey

  datatype RoleIdentity = RoleIdentity(roleType: nat, mspid: string)
  datatype JsonPolicy = JsonPolicy(identities: seq<RoleIdentity>, policy: Spec)

  // ----- Building

  /** `key.match(/^(\d+)-of$/)` and the `parseInt` of its group. */
  function KeyNumber(key: string): Option<nat> {
    if |key| > 3 && key[|key| - 3..] == "-of" && Digits(key[..|key| - 3])
    then Some(ParseInt(key[..|key| - 3]))
    else None
  }

  /** `parsePolicy`; a key of another form makes it throw. */
  function ParseSpec(spec: Spec): Option<Rule>
    decreases spec, 1
  {
    match spec
    case SignedByAt(i) => Some(SignedBy(i))
    case NoKey => None
    case Keyed(key, subs) =>
      if KeyNumber(key) == None then None
      else
        match ParseSpecs(subs)
        case None => None
        case Some(rules) => Some(NOutOf(KeyNumber(key).value, rules))
  }

  function ParseSpecs(specs: seq<Spec>): Option<seq<Rule>>
    decreases specs, 0
  {
    if specs == [] then Some([])
    else if ParseSpec(specs[0]) == None || ParseSpecs(specs[1..]) == None then None
    else Some([ParseSpec(specs[0]).value] + ParseSpecs(specs[1..]).value)
  }

  function BuildPrincipal(identity: RoleIdentity): Principal { Principal(identity.roleType, identity.mspid) }

  /** `buildSignaturePolicyEnvelope` */
  function BuildEnvelope(policy: JsonPolicy): Outcome {
    match ParseSpec(policy.policy)
    case None => Throws
    case Some(rule) =>
      Built(Envelope(0, rule, seq(|policy.identities|, i requires 0 <= i < |policy.identities| =>
        BuildPrincipal(policy.identities[i]))))
  }

  /** The key pattern: digits and then `-of`, the digits being the number. */
  lemma KeyPatternExact(key: string, n: nat)
    ensures KeyNumber(key) == Some(n)
            <==> exists digits :: Digits(digits) && key == digits + "-of" && n == ParseInt(digits)
  {
    if KeyNumber(key) == Some(n) {
      var digits := key[..|key| - 3];
      assert Digits(digits) && key == digits + "-of";
    }
    if digits :| Digits(digits) && key == digits + "-of" && n == ParseInt(digits) {
      assert key[..|key| - 3] == digits && key[|key| - 3..] == "-of";
    }
  }

  /** Every element inside has a key the pattern takes. */
  predicate AllKeysMatch(spec: Spec) {
    match spec
    case SignedByAt(_) => true
    case NoKey => false
    case Keyed(key, subs) => KeyNumber(key).Some? && forall i | 0 <= i < |subs| :: AllKeysMatch(subs[i])
  }

  /** Building throws exactly when some element, at any depth, has no such key. */
  lemma {:induction false} SpecAcceptedExactly(spec: Spec)
    ensures ParseSpec(spec).Some? <==> AllKeysMatch(spec)
    decreases spec, 1
  {
    if spec.Keyed? {
      SpecsAcceptedExactly(spec.subs);
    }
  }

  lemma {:induction false} SpecsAcceptedExactly(specs: seq<Spec>)
    ensures ParseSpecs(specs).Some? <==> forall i | 0 <= i < |specs| :: AllKeysMatch(specs[i])
    ensures ParseSpecs(specs).Some? ==>
              && |ParseSpecs(specs).value| == |specs|
              && forall i | 0 <= i < |specs| :: ParseSpec(specs[i]) == Some(ParseSpecs(specs).value[i])
    decreases specs, 0
  {
    if specs != [] {
      SpecAcceptedExactly(specs[0]);
      SpecsAcceptedExactly(specs[1..]);
      assert forall i | 1 <= i < |specs| :: specs[i] == specs[1..][i - 1];
      assert forall i | 0 <= i < |specs| - 1 :: specs[1..][i] == specs[i + 1];
    }
  }

  lemma BuildsExactly(policy: JsonPolicy)
    ensures BuildEnvelope(policy).Throws? <==> !AllKeysMatch(policy.policy)
    ensures BuildEnvelope(policy).Built? ==>
              var e := BuildEnvelope(policy).envelope;
              && |e.identities| == |policy.identities|
              && forall i | 0 <= i < |e.identities| ::
                   e.identities[i] == Principal(policy.identities[i].roleType, policy.identities[i].mspid)
  {
    SpecAcceptedExactly(policy.policy);
  }

  // ----- What a JSON policy asks for

  /** A set of principals satisfies an element: `n-of` asks for `n` of its elements. */
  predicate SpecHolds(spec: Spec, identities: seq<RoleIdentity>, signers: set<Principal>)
    decreases spec, 1
  {
    match spec
    case SignedByAt(i) => i < |identities| && Principal(identities[i].roleType, identities[i].mspid) in signers
    case NoKey => false
    case Keyed(key, subs) => KeyNumber(key).Some? && HowMany(subs, identities, signers) >= KeyNumber(key).value
  }

  function HowMany(subs: seq<Spec>, identities: seq<RoleIdentity>, signers: set<Principal>): nat
    decreases subs, 0
  {
    if subs == [] then 0
    else (if SpecHolds(subs[0], identities, signers) then 1 else 0) + HowMany(subs[1..], identities, signers)
  }

  lemma {:induction false} RuleMeansSpec(
      spec: Spec, identities: seq<RoleIdentity>, table: seq<Principal>, signers: set<Principal>)
    requires ParseSpec(spec).Some? && |table| == |identities|
    requires forall i | 0 <= i < |table| :: table[i] == BuildPrincipal(identities[i])
    ensures Satisfied(ParseSpec(spec).value, table, signers) <==> SpecHolds(spec, identities, signers)
    decreases spec, 1
  {
    if spec.Keyed? {
      RulesMeanSpecs(spec.subs, identities, table, signers);
    }
  }

  lemma {:induction false} RulesMeanSpecs(
      subs: seq<Spec>, identities: seq<RoleIdentity>, table: seq<Principal>, signers: set<Principal>)
    requires ParseSpecs(subs).Some? && |table| == |identities|
    requires forall i | 0 <= i < |table| :: table[i] == BuildPrincipal(identities[i])
    ensures CountSatisfied(ParseSpecs(subs).value, table, signers) == HowMany(subs, identities, signers)
    decreases subs, 0
  {
    if subs != [] {
      RuleMeansSpec(subs[0], identities, table, signers);
      RulesMeanSpecs(subs[1..], identities, table, signers);
      assert ParseSpecs(subs).value[1..] == ParseSpecs(subs[1..]).value;
    }
  }

  /** For every JSON policy that builds, the envelope asks for what the policy does, at any depth and for any `n`. */
  lemma JsonMeaningPreserved(policy: JsonPolicy, signers: set<Principal>)
    requires BuildEnvelope(policy).Built?
    ensures var e := BuildEnvelope(policy).envelope;
            Satisfied(e.rule, e.identities, signers) <==> SpecHolds(policy.policy, policy.identities, signers)
  {
    RuleMeansSpec(policy.policy, policy.identities, BuildEnvelope(policy).envelope.identities, signers);
  }

  // ----- The two front ends agree

  /** A clause tree as a JSON specification: OR as "1-of", AND as "k-of" with k arguments. */
  function SpecOf(c: Clause, table: seq<Principal>): Spec
    requires forall p | p in Leaves(c) :: p in table
    decreases c, 1
  {
    match c
    case RoleClause(mspid, role) => SignedByAt(IndexOf(table, PrincipalOf(mspid, role)))
    case GateClause(gate, subs) =>
      Keyed(Decimal(if gate == OR then 1 else |subs|) + "-of", SpecsOf(subs, table))
  }

  function SpecsOf(cs: seq<Clause>, table: seq<Principal>): seq<Spec>
    requires forall p | p in LeavesAll(cs) :: p in table
    decreases cs, 0
  {
    if cs == [] then [] else [SpecOf(cs[0], table)] + SpecsOf(cs[1..], table)
  }

  /** The JSON policy a person would write for a clause tree. */
  function JsonOf(c: Clause): JsonPolicy {
    var table := Distinct([], Leaves(c));
    JsonPolicy(
      seq(|table|, i requires 0 <= i < |table| => RoleIdentity(table[i].role, table[i].mspid)),
      SpecOf(c, table))
  }

  lemma KeyOfNumber(n: nat)
    ensures KeyNumber(Decimal(n) + "-of") == Some(n)
  {
    var key := Decimal(n) + "-of";
    assert key[|key| - 3..] == "-of" && key[..|key| - 3] == Decimal(n);
    DecimalParses(n);
  }

  lemma {:induction false} SpecResolves(c: Clause, table: seq<Principal>)
    requires forall p | p in Leaves(c) :: p in table
    ensures ParseSpec(SpecOf(c, table)) == Some(Resolve(c, table))
    decreases c, 1
  {
    if c.GateClause? {
      KeyOfNumber(if c.gate == OR then 1 else |c.subs|);
      SpecsResolve(c.subs, table);
      ResolveAllAt(c.subs, table);
    }
  }

  lemma {:induction false} SpecsResolve(cs: seq<Clause>, table: seq<Principal>)
    requires forall p | p in LeavesAll(cs) :: p in table
    ensures ParseSpecs(SpecsOf(cs, table)) == Some(ResolveAll(cs, table))
    decreases cs, 0
  {
    if cs != [] {
      SpecResolves(cs[0], table);
      SpecsResolve(cs[1..], table);
      assert SpecsOf(cs, table)[1..] == SpecsOf(cs[1..], table);
    }
  }

  /** For every text `FromString` accepts, the JSON form of its tree builds the same envelope. */
  lemma FrontEndsAgree(s: string)
    requires ParsePolicy(s).Some?
    ensures BuildEnvelope(JsonOf(ParsePolicy(s).value)) == FromText(s)
  {
    var c := ParsePolicy(s).value;
    var table := Distinct([], Leaves(c));
    OnePassIsTwoPass(c, [], table);
    SpecResolves(c, table);
    assert BuildEnvelope(JsonOf(c)).envelope.identities == table;
  }

  // ----- Decoding

  datatype DecodedPolicy =
    | DecodedSignedBy(signedBy: nat)
    | DecodedNOutOf(N: nat, rules: seq<DecodedPolicy>)

  /** A decoded ROLE principal; an unknown role number has no name. */
  datatype DecodedPrincipal = DecodedPrincipal(mspIdentifier: string, Role: Option<string>)

  datatype DecodedEnvelope = DecodedEnvelope(version: int, rule: DecodedPolicy, identities: seq<DecodedPrincipal>)

  /** `MSPRoleType` */
  const ROLE_NAMES := ["MEMBER", "ADMIN", "CLIENT", "PEER", "ORDERER"]

  function Decoded(rule: Rule): DecodedPolicy
    decreases rule, 1
  {
    match rule
    case SignedBy(i) => DecodedSignedBy(i)
    case NOutOf(n, rules) => DecodedNOutOf(n, DecodedAll(rules))
  }

  function DecodedAll(rules: seq<Rule>): (r: seq<DecodedPolicy>)
    ensures |r| == |rules|
    ensures forall i | 0 <= i < |rules| :: r[i] == Decoded(rules[i])
    decreases rules, 0
  {
    if rules == [] then [] else [Decoded(rules[0])] + DecodedAll(rules[1..])
  }

  function DecodePrincipal(p: Principal): DecodedPrincipal {
    DecodedPrincipal(p.mspid, if p.role < |ROLE_NAMES| then Some(ROLE_NAMES[p.role]) else None)
  }

  method DecodeSignaturePolicy(proto: Rule) returns (policy: DecodedPolicy)
    ensures policy == Decoded(proto)
    decreases proto
  {
    match proto
    case SignedBy(i) =>
      policy := DecodedSignedBy(i);
    case NOutOf(n, protoRules) =>
      var rules: seq<DecodedPolicy> := [];
      for k := 0 to |protoRules|
        invariant rules == DecodedAll(protoRules)[..k]
      {
        var decoded := DecodeSignaturePolicy(protoRules[k]);
        rules := rules + [decoded];
      }
      policy := DecodedNOutOf(n, rules);
  }

  method DecodeSignaturePolicyEnvelope(proto: Envelope) returns (envelope: DecodedEnvelope)
    ensures envelope == DecodedFrom(proto)
  {
    var rule := DecodeSignaturePolicy(proto.rule);
    envelope := DecodedEnvelope(proto.version, rule, seq(|proto.identities|, i requires 0 <= i < |proto.identities| =>
      DecodePrincipal(proto.identities[i])));
  }

  function DecodedFrom(e: Envelope): DecodedEnvelope {
    DecodedEnvelope(e.version, Decoded(e.rule), seq(|e.identities|, i requires 0 <= i < |e.identities| =>
      DecodePrincipal(e.identities[i])))
  }

  // ----- Decoding returns what was specified

  /** A decoded rule as the specification it reads like. */
  function SpecFrom(d: DecodedPolicy): Spec
    decreases d, 1
  {
    match d
    case DecodedSignedBy(i) => SignedByAt(i)
    case DecodedNOutOf(n, rules) => Keyed(Decimal(n) + "-of", SpecsFrom(rules))
  }

  function SpecsFrom(ds: seq<DecodedPolicy>): seq<Spec>
    decreases ds, 0
  {
    if ds == [] then [] else [SpecFrom(ds[0])] + SpecsFrom(ds[1..])
  }

  function RoleNumber(name: string): Option<nat> {
    if name == "MEMBER" then Some(0)
    else if name == "ADMIN" then Some(1)
    else if name == "CLIENT" then Some(2)
    else if name == "PEER" then Some(3)
    else if name == "ORDERER" then Some(4)
    else None
  }

  /** A decoded principal as the identity it reads like; none when the role has no name. */
  function IdentityFrom(p: DecodedPrincipal): Option<RoleIdentity> {
    match p.Role
    case None => None
    case Some(name) =>
      match RoleNumber(name)
      case None => None
      case Some(k) => Some(RoleIdentity(k, p.mspIdentifier))
  }

  /** No key of the specification writes its number with a leading zero. */
  predicate CanonicalKeys(spec: Spec) {
    match spec
    case Keyed(key, subs) =>
      |key| > 3 && NoLeadingZero(key[..|key| - 3]) && forall i | 0 <= i < |subs| :: CanonicalKeys(subs[i])
    case _ => true
  }

  lemma KeyRoundTrip(key: string)
    requires KeyNumber(key).Some?
    ensures Decimal(KeyNumber(key).value) + "-of" == key <==> NoLeadingZero(key[..|key| - 3])
  {
    var digits := key[..|key| - 3];
    ParsesToSelf(digits);
    assert key == digits + "-of";
    var again := Decimal(ParseInt(digits)) + "-of";
    assert again[..|again| - 3] == Decimal(ParseInt(digits));
  }

  lemma {:induction false} SpecRoundTrip(spec: Spec)
    requires ParseSpec(spec).Some?
    ensures SpecFrom(Decoded(ParseSpec(spec).value)) == spec <==> CanonicalKeys(spec)
    decreases spec, 1
  {
    if spec.Keyed? {
      KeyRoundTrip(spec.key);
      SpecsRoundTrip(spec.subs);
    }
  }

  lemma {:induction false} SpecsRoundTrip(specs: seq<Spec>)
    requires ParseSpecs(specs).Some?
    ensures SpecsFrom(DecodedAll(ParseSpecs(specs).value)) == specs
            <==> forall i | 0 <= i < |specs| :: CanonicalKeys(specs[i])
    decreases specs, 0
  {
    if specs != [] {
      var rules := ParseSpecs(specs).value;
      SpecRoundTrip(specs[0]);
      SpecsRoundTrip(specs[1..]);
      assert rules[1..] == ParseSpecs(specs[1..]).value;
      assert DecodedAll(rules)[1..] == DecodedAll(rules[1..]);
      assert specs == [specs[0]] + specs[1..];
      var back := SpecsFrom(DecodedAll(rules));
      assert back == [SpecFrom(Decoded(rules[0]))] + SpecsFrom(DecodedAll(rules[1..]));
      assert back == specs <==> back[0] == specs[0] && back[1..] == specs[1..];
      assert forall i | 1 <= i < |specs| :: specs[i] == specs[1..][i - 1];
    }
  }

  /** Decoding a rule loses nothing: what it reads like builds the rule again. */
  lemma {:induction false} DecodedParsesBack(rule: Rule)
    ensures ParseSpec(SpecFrom(Decoded(rule))) == Some(rule)
    decreases rule, 1
  {
    if rule.NOutOf? {
      KeyOfNumber(rule.n);
      DecodedAllParseBack(rule.rules);
    }
  }

  lemma {:induction false} DecodedAllParseBack(rules: seq<Rule>)
    ensures ParseSpecs(SpecsFrom(DecodedAll(rules))) == Some(rules)
    decreases rules, 0
  {
    if rules != [] {
      DecodedParsesBack(rules[0]);
      DecodedAllParseBack(rules[1..]);
      assert DecodedAll(rules)[1..] == DecodedAll(rules[1..]);
      assert SpecsFrom(DecodedAll(rules))[1..] == SpecsFrom(DecodedAll(rules)[1..]);
      assert rules == [rules[0]] + rules[1..];
    }
  }

  lemma PrincipalRoundTrip(identity: RoleIdentity)
    ensures IdentityFrom(DecodePrincipal(BuildPrincipal(identity))) == Some(identity)
            <==> identity.roleType < 5
    ensures DecodePrincipal(BuildPrincipal(identity)).mspIdentifier == identity.mspid
    ensures DecodePrincipal(BuildPrincipal(identity)).Role == None <==> identity.roleType >= 5
  {
    assert identity.roleType in {0, 1, 2, 3, 4} || identity.roleType >= 5;
  }

  /**
   Building a JSON policy and decoding the envelope returns the policy: its tree exactly when no
   key has a leading zero, and each identity exactly when its role number has a name.
   */
  lemma EnvelopeRoundTrip(policy: JsonPolicy)
    requires BuildEnvelope(policy).Built?
    ensures var d := DecodedFrom(BuildEnvelope(policy).envelope);
            && d.version == 0
            && (SpecFrom(d.rule) == policy.policy <==> CanonicalKeys(policy.policy))
            && |d.identities| == |policy.identities|
            && (forall i | 0 <= i < |d.identities| ::
                  IdentityFrom(d.identities[i]) == Some(policy.identities[i])
                  <==> policy.identities[i].roleType < |ROLE_NAMES|)
  {
    SpecRoundTrip(policy.policy);
    forall i | 0 <= i < |policy.identities|
      ensures IdentityFrom(DecodePrincipal(BuildPrincipal(policy.identities[i]))) == Some(policy.identities[i])
              <==> policy.identities[i].roleType < |ROLE_NAMES|
    {
      PrincipalRoundTrip(policy.identities[i]);
    }
  }

  lemma {:induction false} DecodesToSpec(c: Clause, table: seq<Principal>)
    requires forall p | p in Leaves(c) :: p in table
    ensures SpecFrom(Decoded(Resolve(c, table))) == SpecOf(c, table)
    decreases c, 1
  {
    if c.GateClause? {
      DecodeAllToSpecs(c.subs, table);
      ResolveAllAt(c.subs, table);
    }
  }

  lemma {:induction false} DecodeAllToSpecs(cs: seq<Clause>, table: seq<Principal>)
    requires forall p | p in LeavesAll(cs) :: p in table
    ensures SpecsFrom(DecodedAll(ResolveAll(cs, table))) == SpecsOf(cs, table)
    decreases cs, 0
  {
    if cs != [] {
      DecodesToSpec(cs[0], table);
      DecodeAllToSpecs(cs[1..], table);
      assert DecodedAll(ResolveAll(cs, table))[1..] == DecodedAll(ResolveAll(cs[1..], table));
    }
  }

  /** Decoding what `FromString` built shows the JSON policy of the same clause tree. */
  lemma TextDecodesToItsJson(s: string)
    requires ParsePolicy(s).Some?
    ensures FromText(s).Built?
    ensures var d := DecodedFrom(FromText(s).envelope); var json := JsonOf(ParsePolicy(s).value);
            && SpecFrom(d.rule) == json.policy
            && |d.identities| == |json.identities|
            && (forall i | 0 <= i < |d.identities| :: IdentityFrom(d.identities[i]) == Some(json.identities[i]))
  {
    var c := ParsePolicy(s).value;
    var table := Distinct([], Leaves(c));
    OnePassIsTwoPass(c, [], table);
    DecodesToSpec(c, table);
    forall i | 0 <= i < |table|
      ensures IdentityFrom(DecodePrincipal(table[i])) == Some(RoleIdentity(table[i].role, table[i].mspid))
    {
      LeafRoles(c, table[i]);
      PrincipalRoundTrip(RoleIdentity(table[i].role, table[i].mspid));
      assert BuildPrincipal(RoleIdentity(table[i].role, table[i].mspid)) == table[i];
    }
  }

  lemma {:induction false} LeafRoles(c: Clause, p: Principal)
    requires p in Leaves(c)
    ensures p.role < |ROLE_NAMES|
    decreases c, 1
  {
    if c.GateClause? {
      LeavesRoles(c.subs, p);
    }
  }

  lemma {:induction false} LeavesRoles(cs: seq<Clause>, p: Principal)
    requires p in LeavesAll(cs)
    ensures p.role < |ROLE_NAMES|
    decreases cs, 0
  {
    if p in Leaves(cs[0]) {
      LeafRoles(cs[0], p);
    } else {
      LeavesRoles(cs[1..], p);
    }
  }

  function UpperChar(c: char): char {
    if 'a' <= c <= 'z' then (c as int - 32) as char else c
  }

  /** `toUpperCase` on ASCII text. */
  function Upper(s: string): (r: string)
    ensures |r| == |s| && forall i | 0 <= i < |s| :: r[i] == UpperChar(s[i])
  {
    if s == "" then "" else [UpperChar(s[0])] + Upper(s[1..])
  }

  /** The role a text writes in lower case is the role its envelope shows in upper case. */
  lemma WrittenRoleIsDecoded(mspid: string, role: Role)
    ensures DecodePrincipal(PrincipalOf(mspid, role)) == DecodedPrincipal(mspid, Some(Upper(RoleText(role))))
  {
    var name := ROLE_NAMES[RoleType(role)];
    assert |name| == |RoleText(role)|;
    forall i | 0 <= i < |name| ensures name[i] == UpperChar(RoleText(role)[i]) {
    }
    assert name == Upper(RoleText(role));
  }
}
