/** Written policies against built envelopes: what plain texts guarantee and other texts lose. */
module GateMeaning {
  import opened Text
  import opened GateSyntax
  import opened GateLayout
  import opened GatePieces
  import opened GatePolicy
  import opened GateResidue

  /** The law for a written policy: the envelope built from its text is that of its tree. */
  lemma PlainPolicyBuilds(l: Layout)
    requires WellFormed(l) && Plain(l)
    ensures FromText(Print(l)) == Built(TwoPass(Tree(l)))
  {
    ReadsBackExactlyPlain(l);
    TextIsTwoPass(Print(l));
  }

  /** `FromString` throws for every text that is no gate around a body it takes, and for no other. */
  lemma ThrowsExactly(s: string)
    ensures FromText(s).Throws?
            <==> !exists gate, body :: s == GateItem(gate, body) && body != "" && GateBody(body)
  {
    if MatchGate(s).Some? {
      var m := MatchGate(s).value;
      GatePatternExact(s, m.gate, m.body);
    }
    if gate, body :| s == GateItem(gate, body) && body != "" && GateBody(body) {
      GatePatternExact(s, gate, body);
    }
  }

  /** For a written policy: for blanks around it, no argument, or a dash at any depth. */
  lemma WrittenThrowsExactly(l: Layout)
    requires l.GateAt? && WellFormed(l)
    ensures FromText(Print(l)).Throws? <==> !Bare(l) || l.args == [] || !NoDashes(l)
  {
    AcceptedExactly(l);
  }

  /** The meaning of the envelope built from a text, for a written policy. */
  predicate BuiltHolds(l: Layout, signers: set<Principal>) {
    var r := FromText(Print(l));
    r.Built? && Satisfied(r.envelope.rule, r.envelope.identities, signers)
  }

  /** Built and written policy are satisfied by the same sets of principals. */
  ghost predicate MeansWhatIsWritten(l: Layout) {
    forall signers: set<Principal> :: BuiltHolds(l, signers) <==> Holds(Tree(l), signers)
  }

  lemma PlainPolicyMeans(l: Layout, signers: set<Principal>)
    requires WellFormed(l) && Plain(l)
    ensures BuiltHolds(l, signers) <==> Holds(Tree(l), signers)
  {
    ReadsBackExactlyPlain(l);
    MeaningPreserved(Print(l), signers);
  }

  predicate Named(mspid: string) { Mspid(mspid) && '-' !in mspid }

  lemma TreesOfTwo(a: Layout, b: Layout)
    ensures Trees([a, b]) == [Tree(a), Tree(b)]
  {
    assert [a, b][1..] == [b] && [b][1..] == [];
  }

  /** The text of the documented collection policy, with a blank after its comma. */
  function TwoOrgs(org1: string, org2: string): Layout {
    GateAt("", OR, [RoleAt("", org1, MEMBER, ""), RoleAt(" ", org2, MEMBER, "")], "")
  }

  /** With the usual names this is the text `OR('Org1MSP.member', 'Org2MSP.member')`. */
  lemma TwoOrgsText(org1: string, org2: string)
    ensures Print(TwoOrgs(org1, org2)) == "OR('" + org1 + ".member', '" + org2 + ".member')"
  {
    var a, b := TwoOrgs(org1, org2).args[0], TwoOrgs(org1, org2).args[1];
    MemberText("", org1);
    MemberText(" ", org2);
    JoinOfTwo(a, b);
    BareGate(TwoOrgs(org1, org2));
    TwoOrgsParts(org1, org2);
  }

  lemma TwoOrgsParts(org1: string, org2: string)
    ensures GateItem(OR, ("" + "'" + org1 + ".member'") + "," + (" " + "'" + org2 + ".member'"))
            == "OR('" + org1 + ".member', '" + org2 + ".member')"
  {
    assert GateWord(OR) == "OR";
  }

  lemma MemberText(lead: string, org: string)
    ensures Print(RoleAt(lead, org, MEMBER, "")) == lead + "'" + org + ".member'"
  {
  }

  lemma JoinOfTwo(a: Layout, b: Layout)
    ensures Join(Prints([a, b]), ',') == Print(a) + "," + Print(b)
  {
    var prints := Prints([a, b]);
    PrintsAt([a, b]);
    assert prints[1..] == [Print(b)];
  }

  lemma UnpaddedOfTwo(a: Layout, b: Layout)
    requires a.lead == "" && a.trail == "" && b.lead != ""
    ensures Unpadded([a, b]) == [a] && Trees([a]) == [Tree(a)]
  {
    assert [a, b][1..] == [b] && [b][1..] == [] && [a][1..] == [];
    assert Unpadded([b]) == [];
  }

  lemma TwoOrgsReading(org1: string, org2: string)
    requires Named(org1) && Named(org2)
    ensures ParsePolicy(Print(TwoOrgs(org1, org2))) == Some(GateClause(OR, [RoleClause(org1, MEMBER)]))
  {
    var l := TwoOrgs(org1, org2);
    FlatPolicyReading(l);
    UnpaddedOfTwo(l.args[0], l.args[1]);
  }

  /**
   The second organisation of the text is written but not built: its members satisfy the policy
   as written and not the envelope.
   */
  lemma BlankLosesOrganisation(org1: string, org2: string)
    requires Named(org1) && Named(org2) && org1 != org2
    ensures var signers := {PrincipalOf(org2, MEMBER)};
            Holds(Tree(TwoOrgs(org1, org2)), signers) && !BuiltHolds(TwoOrgs(org1, org2), signers)
  {
    var l := TwoOrgs(org1, org2);
    var signers := {PrincipalOf(org2, MEMBER)};
    TreesOfTwo(l.args[0], l.args[1]);
    assert Holds(Tree(l).subs[1], signers);
    TwoOrgsReading(org1, org2);
    MeaningPreserved(Print(l), signers);
  }

  /** A nested AND whose first argument is a gate itself, under an OR. */
  function GateFirst(a: string, b: string): Layout {
    var first := GateAt("", OR, [RoleAt("", a, MEMBER, "")], "");
    GateAt("", OR, [GateAt("", AND, [first, RoleAt("", b, MEMBER, "")], "")], "")
  }

  lemma GateFirstText(a: string, b: string)
    ensures Print(GateFirst(a, b)) == "OR(AND(OR('" + a + ".member'),'" + b + ".member'))"
  {
    var nested := GateFirst(a, b).args[0];
    MemberText("", a);
    MemberText("", b);
    OneArgument(nested.args[0]);
    JoinOfTwo(nested.args[0], nested.args[1]);
    BareGate(nested);
    OneArgument(GateFirst(a, b));
    GateFirstParts("" + "'" + a + ".member'", "" + "'" + b + ".member'");
    GateFirstGlue("OR(AND(OR(", "'", a, ".member'", "),", b, "))");
    assert "OR(AND(OR(" + "'" == "OR(AND(OR('";
    assert ".member'" + ")," + "'" == ".member'),'";
    assert ".member'" + "))" == ".member'))";
  }

  lemma GateFirstGlue(p: string, q: string, a: string, m: string, c: string, b: string, e: string)
    ensures p + ("" + q + a + m) + c + ("" + q + b + m) + e == (p + q) + a + (m + c + q) + b + (m + e)
  {
    var first := p + ("" + q + a + m);
    assert first == (p + q) + a + m;
    assert first + c + ("" + q + b + m) == (p + q) + a + (m + c + q) + (b + m);
  }

  lemma GateFirstParts(first: string, last: string)
    ensures GateItem(OR, GateItem(AND, GateItem(OR, first) + "," + last)) == "OR(AND(OR(" + first + ")," + last + "))"
  {
    assert GateWord(OR) == "OR" && GateWord(AND) == "AND";
    var inner := "OR(" + first + ")";
    assert GateItem(OR, first) == inner;
    assert GateItem(AND, inner + "," + last) == "AND(" + inner + "," + last + ")";
    assert "OR(" + ("AND(" + inner + "," + last + ")") + ")" == "OR(AND(" + inner + "," + last + "))";
    assert "OR(AND(" + inner + "," + last + "))" == "OR(AND(OR(" + first + ")," + last + "))";
  }

  lemma OneArgument(l: Layout)
    requires l.GateAt? && Bare(l) && |l.args| == 1
    ensures Print(l) == GateItem(l.gate, Print(l.args[0]))
  {
    BareGate(l);
    assert Prints(l.args) == [Print(l.args[0])];
  }

  /**
   `OR(AND(OR('a.member'),'b.member'))`: its first piece `AND(OR('a.member')` matches the gate
   pattern, but nothing inside it does. It is read as an AND of nothing, so nobody has to sign.
   */
  lemma NobodyHasToSign(a: string, b: string)
    requires Named(a) && Named(b)
    ensures ParsePolicy(Print(GateFirst(a, b))) == Some(GateClause(OR, [GateClause(AND, [])]))
    ensures BuiltHolds(GateFirst(a, b), {}) && !Holds(Tree(GateFirst(a, b)), {})
  {
    var l := GateFirst(a, b);
    GateFirstLegal(a, b);
    WrittenReading(l);
    GateFirstPieces(a, b);
    MeaningPreserved(Print(l), {});
    NothingHolds(Tree(l));
    assert Holds(GateClause(OR, [GateClause(AND, [])]).subs[0], {});
  }

  lemma GateFirstLegal(a: string, b: string)
    requires Named(a) && Named(b)
    ensures var l := GateFirst(a, b); WellFormed(l) && Bare(l) && NoDashes(l) && NoEmptyGate(Tree(l))
  {
    var l := GateFirst(a, b);
    var nested := l.args[0];
    TreesOfTwo(nested.args[0], nested.args[1]);
    assert Trees(l.args) == [Tree(nested)];
    assert Trees(nested.args[0].args) == [RoleClause(a, MEMBER)];
    assert NoEmptyGate(Tree(nested.args[0])) && NoEmptyGate(Tree(nested.args[1]));
    assert NoEmptyGate(Tree(nested));
    assert WellFormed(nested.args[0].args[0]) && NoDashes(nested.args[0].args[0]);
    assert WellFormed(nested.args[0]) && NoDashes(nested.args[0]);
    assert WellFormed(nested) && NoDashes(nested);
  }

  predicate NoEmptyGate(c: Clause) {
    c.GateClause? ==> c.subs != [] && forall i | 0 <= i < |c.subs| :: NoEmptyGate(c.subs[i])
  }

  /** As long as every gate has an argument, somebody has to sign. */
  lemma {:induction false} NothingHolds(c: Clause)
    requires NoEmptyGate(c)
    ensures !Holds(c, {})
  {
    if c.GateClause? {
      forall i | 0 <= i < |c.subs| ensures !Holds(c.subs[i], {}) {
        NothingHolds(c.subs[i]);
      }
      assert !Holds(c.subs[0], {});
      assert c.gate == AND || c.gate == OR;
    }
  }

  lemma GateFirstPieces(a: string, b: string)
    ensures AsRead(GateFirst(a, b)) == GateClause(OR, [GateClause(AND, [])])
  {
    var first, last := RoleAt("", a, MEMBER, ""), RoleAt("", b, MEMBER, "");
    var inner := GateAt("", OR, [first], "");
    var nested := GateAt("", AND, [inner, last], "");
    var or, and := Open("", OR), Open("", AND);
    assert [or] + [] == [or] && [and] + [or] == [and, or] && [] + [""] == [""];
    WrapOne(Piece([], Some(first), []), or, "");
    PiecesOfOne(first);
    assert Pieces(inner) == [Piece([or], Some(first), [""])];
    PiecesOfTwo(inner, last);
    WrapTwo(Piece([or], Some(first), [""]), Piece([], Some(last), []), and, "");
    PiecesOfOne(nested);
    var p, q := Piece([and, or], Some(first), [""]), Piece([], Some(last), [""]);
    assert Pieces(nested) == [p, q];
    assert Inner(p) == Piece([or], Some(first), []);
    assert ReadPiece(p) == Some(GateClause(AND, []));
    assert ReadPiece(q) == None;
    ReadFirst(p, [q]);
    ReadFirst(q, []);
    assert [p] + [q] == [p, q] && [q] + [] == [q];
  }

  // ----- Policies one would write, from text to envelope

  /** The roles as texts write them and as principals carry them. */
  lemma RolesWritten(mspid: string)
    ensures RoleKey(mspid, MEMBER) == mspid + "." + "member" && PrincipalOf(mspid, MEMBER) == Principal(0, mspid)
    ensures RoleKey(mspid, ADMIN) == mspid + "." + "admin" && PrincipalOf(mspid, ADMIN) == Principal(1, mspid)
    ensures RoleKey(mspid, CLIENT) == mspid + "." + "client" && PrincipalOf(mspid, CLIENT) == Principal(2, mspid)
    ensures RoleKey(mspid, PEER) == mspid + "." + "peer" && PrincipalOf(mspid, PEER) == Principal(3, mspid)
    ensures RoleKey(mspid, ORDERER) == mspid + "." + "orderer" && PrincipalOf(mspid, ORDERER) == Principal(4, mspid)
  {
  }

  function Pair(gate: Gate, a: string, ra: Role, b: string, rb: Role): Layout {
    GateAt("", gate, [RoleAt("", a, ra, ""), RoleAt("", b, rb, "")], "")
  }

  lemma PairText(gate: Gate, a: string, ra: Role, b: string, rb: Role)
    ensures Print(Pair(gate, a, ra, b, rb)) == GateItem(gate, Quoted(RoleKey(a, ra)) + "," + Quoted(RoleKey(b, rb)))
  {
    var l := Pair(gate, a, ra, b, rb);
    JoinOfTwo(l.args[0], l.args[1]);
    PlainRolePrint(l.args[0]);
    PlainRolePrint(l.args[1]);
    BareGate(l);
  }

  /** Two roles under a gate, without blanks: one identity for each principal, in order. */
  lemma PairBuilds(gate: Gate, a: string, ra: Role, b: string, rb: Role)
    requires Named(a) && Named(b)
    ensures var p, q := PrincipalOf(a, ra), PrincipalOf(b, rb);
            FromText(GateItem(gate, Quoted(RoleKey(a, ra)) + "," + Quoted(RoleKey(b, rb))))
            == Built(Envelope(0, NOutOf(if gate == AND then 2 else 1, [SignedBy(0), SignedBy(if p == q then 0 else 1)]),
                              if p == q then [p] else [p, q]))
  {
    var l := Pair(gate, a, ra, b, rb);
    PlainPolicyBuilds(l);
    PairText(gate, a, ra, b, rb);
    TreesOfTwo(l.args[0], l.args[1]);
    PairEnvelope(gate, RoleClause(a, ra), RoleClause(b, rb));
  }

  lemma PairEnvelope(gate: Gate, c: Clause, e: Clause)
    requires c.RoleClause? && e.RoleClause?
    ensures var p, q := PrincipalOf(c.mspid, c.role), PrincipalOf(e.mspid, e.role);
            TwoPass(GateClause(gate, [c, e]))
            == Envelope(0, NOutOf(if gate == AND then 2 else 1, [SignedBy(0), SignedBy(if p == q then 0 else 1)]),
                        if p == q then [p] else [p, q])
  {
    var p, q := PrincipalOf(c.mspid, c.role), PrincipalOf(e.mspid, e.role);
    LeavesOfTwo(c, e);
    assert [p] + [q] == [p, q];
    DistinctOfTwo(p, q);
    var table := if p == q then [p] else [p, q];
    ResolveOfTwo(c, e, table);
    assert IndexOf(table, p) == 0 && IndexOf(table, q) == if p == q then 0 else 1;
  }

  lemma LeavesOfTwo(c: Clause, e: Clause)
    ensures LeavesAll([c, e]) == Leaves(c) + Leaves(e)
  {
    LeavesOfOne(e);
    assert [c, e][1..] == [e];
  }

  lemma LeavesOfOne(c: Clause)
    ensures LeavesAll([c]) == Leaves(c)
  {
    assert [c][1..] == [];
  }

  lemma ResolveOfTwo(c: Clause, e: Clause, table: seq<Principal>)
    requires (forall p | p in LeavesAll([c, e]) :: p in table) && LeavesAll([c, e]) == Leaves(c) + Leaves(e)
    ensures (forall p | p in Leaves(c) :: p in table) && (forall p | p in Leaves(e) :: p in table)
    ensures ResolveAll([c, e], table) == [Resolve(c, table), Resolve(e, table)]
  {
    forall p | p in Leaves(c) ensures p in table { assert p in LeavesAll([c, e]); }
    forall p | p in Leaves(e) ensures p in table { assert p in LeavesAll([c, e]); }
    ResolveAllAt([c, e], table);
  }

  lemma DistinctOfTwo(p: Principal, q: Principal)
    ensures Distinct([], [p, q]) == if p == q then [p] else [p, q]
  {
    assert [p, q][1..] == [q] && [q][1..] == [] && [] + [p] == [p] && [p] + [q] == [p, q];
    assert Distinct([p], [q]) == if p == q then [p] else [p, q];
  }

  /** The same for a single role. */
  lemma SingleBuilds(gate: Gate, mspid: string, role: Role)
    requires Named(mspid)
    ensures FromText(GateItem(gate, Quoted(RoleKey(mspid, role))))
            == Built(Envelope(0, NOutOf(1, [SignedBy(0)]), [PrincipalOf(mspid, role)]))
  {
    var l := GateAt("", gate, [RoleAt("", mspid, role, "")], "");
    var c, p := RoleClause(mspid, role), PrincipalOf(mspid, role);
    PlainPolicyBuilds(l);
    OneArgument(l);
    PlainRolePrint(l.args[0]);
    assert Trees(l.args) == [c];
    LeavesOfOne(c);
    assert [p][1..] == [] && [] + [p] == [p];
    assert Distinct([p], []) == [p] && Distinct([], [p]) == [p];
    ResolveAllAt([c], [p]);
    assert ResolveAll([c], [p]) == [SignedBy(0)];
  }

  lemma OrgsNamed(org1: string, org2: string)
    requires org1 == "Org1MSP" && org2 == "Org2MSP"
    ensures Named(org1) && Named(org2)
  {
    forall c | c in org1 || c in org2 ensures MspidChar(c) && c != '-' {
      MspidCharacters(c);
    }
  }

  // From text to envelope, with nothing but literals.

  lemma OneOrgPolicy(org1: string, text: string)
    requires org1 == "Org1MSP" && text == "OR('Org1MSP.member')"
    ensures FromText(text) == Built(Envelope(0, NOutOf(1, [SignedBy(0)]), [Principal(0, org1)]))
  {
    OrgsNamed(org1, "Org2MSP");
    SingleBuilds(OR, org1, MEMBER);
    OneOrgWritten(org1, text);
  }

  lemma OneOrgWritten(org1: string, text: string)
    requires org1 == "Org1MSP" && text == "OR('Org1MSP.member')"
    ensures text == GateItem(OR, Quoted(RoleKey(org1, MEMBER)))
  {
    ItemWritten(org1, MEMBER);
  }

  lemma TwoOrgsPolicy(org1: string, org2: string, text: string)
    requires org1 == "Org1MSP" && org2 == "Org2MSP"
    requires text == "OR(" + "'Org1MSP.member'" + "," + "'Org2MSP.member'" + ")"
    ensures FromText(text)
            == Built(Envelope(0, NOutOf(1, [SignedBy(0), SignedBy(1)]), [Principal(0, org1), Principal(0, org2)]))
  {
    OrgsNamed(org1, org2);
    PairBuilds(OR, org1, MEMBER, org2, MEMBER);
    TwoOrgsWritten(org1, org2, text);
  }

  lemma TwoOrgsWritten(org1: string, org2: string, text: string)
    requires org1 == "Org1MSP" && org2 == "Org2MSP"
    requires text == "OR(" + "'Org1MSP.member'" + "," + "'Org2MSP.member'" + ")"
    ensures text == GateItem(OR, Quoted(RoleKey(org1, MEMBER)) + "," + Quoted(RoleKey(org2, MEMBER)))
  {
    MembersWritten(org1, org2);
    CommaWritten(OR, "OR", Quoted(RoleKey(org1, MEMBER)), "'Org1MSP.member'",
                 Quoted(RoleKey(org2, MEMBER)), "'Org2MSP.member'");
  }

  lemma MembersWritten(org1: string, org2: string)
    requires org1 == "Org1MSP" && org2 == "Org2MSP"
    ensures Quoted(RoleKey(org1, MEMBER)) == "'Org1MSP.member'" && Quoted(RoleKey(org2, MEMBER)) == "'Org2MSP.member'"
  {
    ItemWritten(org1, MEMBER);
    ItemWritten(org2, MEMBER);
    assert "'" + org1 + ".member'" == "'Org1MSP.member'";
    assert "'" + org2 + ".member'" == "'Org2MSP.member'";
  }

  lemma AdminAndPeerPolicy(org1: string, text: string)
    requires org1 == "Org1MSP" && text == "AND(" + "'Org1MSP.admin'" + "," + "'Org1MSP.peer'" + ")"
    ensures FromText(text)
            == Built(Envelope(0, NOutOf(2, [SignedBy(0), SignedBy(1)]), [Principal(1, org1), Principal(3, org1)]))
  {
    OrgsNamed(org1, "Org2MSP");
    PairBuilds(AND, org1, ADMIN, org1, PEER);
    AdminAndPeerWritten(org1, text);
  }

  lemma AdminAndPeerWritten(org1: string, text: string)
    requires org1 == "Org1MSP" && text == "AND(" + "'Org1MSP.admin'" + "," + "'Org1MSP.peer'" + ")"
    ensures text == GateItem(AND, Quoted(RoleKey(org1, ADMIN)) + "," + Quoted(RoleKey(org1, PEER)))
  {
    AdminWritten(org1);
    PeerWritten(org1);
    CommaWritten(AND, "AND", Quoted(RoleKey(org1, ADMIN)), "'Org1MSP.admin'",
                 Quoted(RoleKey(org1, PEER)), "'Org1MSP.peer'");
  }

  lemma AdminWritten(org1: string)
    requires org1 == "Org1MSP"
    ensures Quoted(RoleKey(org1, ADMIN)) == "'Org1MSP.admin'"
  {
    ItemWritten(org1, ADMIN);
  }

  lemma PeerWritten(org1: string)
    requires org1 == "Org1MSP"
    ensures Quoted(RoleKey(org1, PEER)) == "'Org1MSP.peer'"
  {
    ItemWritten(org1, PEER);
  }

  lemma RepeatedClientPolicy(org1: string, text: string)
    requires org1 == "Org1MSP" && text == "AND(" + "'Org1MSP.client'" + "," + "'Org1MSP.client'" + ")"
    ensures FromText(text) == Built(Envelope(0, NOutOf(2, [SignedBy(0), SignedBy(0)]), [Principal(2, org1)]))
  {
    OrgsNamed(org1, "Org2MSP");
    PairBuilds(AND, org1, CLIENT, org1, CLIENT);
    RepeatedClientWritten(org1, text);
  }

  lemma RepeatedClientWritten(org1: string, text: string)
    requires org1 == "Org1MSP" && text == "AND(" + "'Org1MSP.client'" + "," + "'Org1MSP.client'" + ")"
    ensures text == GateItem(AND, Quoted(RoleKey(org1, CLIENT)) + "," + Quoted(RoleKey(org1, CLIENT)))
  {
    var client := Quoted(RoleKey(org1, CLIENT));
    ClientWritten(org1);
    CommaWritten(AND, "AND", client, "'Org1MSP.client'", client, "'Org1MSP.client'");
  }

  lemma ClientWritten(org1: string)
    requires org1 == "Org1MSP"
    ensures Quoted(RoleKey(org1, CLIENT)) == "'Org1MSP.client'"
  {
    ItemWritten(org1, CLIENT);
  }

  lemma CommaWritten(gate: Gate, word: string, first: string, a: string, last: string, b: string)
    requires word == GateWord(gate) && first == a && last == b
    ensures GateItem(gate, first + "," + last) == word + "(" + a + "," + b + ")"
  {
    assert word + "(" + (a + "," + b) + ")" == word + "(" + a + "," + b + ")";
  }

  lemma ItemWritten(a: string, ra: Role)
    ensures Quoted(RoleKey(a, ra)) == "'" + a + "." + RoleText(ra) + "'"
  {
  }

  // ----- Exactly which policies mean what is written

  predicate AllChains(args: seq<Layout>) { forall i | 0 <= i < |args| :: Chain(args[i]) }

  /** The one role a chain is about. */
  function PrincipalAt(l: Layout): Principal
    requires Chain(l)
  {
    match l
    case RoleAt(_, mspid, role, _) => PrincipalOf(mspid, role)
    case GateAt(_, _, args, _) => PrincipalAt(args[0])
  }

  /** The gate of a chain that is read, but whose own argument is lost to a blank beside it. */
  function EmptiedGate(l: Layout): Option<Gate>
    requires Chain(l)
  {
    match l
    case RoleAt(_, _, _, _) => None
    case GateAt(_, gate, args, _) =>
      if !Bare(l) then None else if !Bare(args[0]) then Some(gate) else EmptiedGate(args[0])
  }

  /** Some argument asks for this principal and has no blank beside or inside it. */
  predicate StandsPlain(args: seq<Layout>, p: Principal)
    requires AllChains(args)
  {
    exists j | 0 <= j < |args| :: PlainArgument(args[j]) && PrincipalAt(args[j]) == p
  }

  /**
   No argument of an OR is left with an empty AND, none of an AND with an empty OR, and every
   principal the policy names also stands in an argument without blanks.
   */
  predicate BlanksDoNoHarm(l: Layout)
    requires l.GateAt? && AllChains(l.args)
  {
    && (forall i | 0 <= i < |l.args| :: EmptiedGate(l.args[i]).None? || EmptiedGate(l.args[i]).value == l.gate)
    && (forall i | 0 <= i < |l.args| :: StandsPlain(l.args, PrincipalAt(l.args[i])))
  }

  lemma UnaryHolds(gate: Gate, c: Clause, signers: set<Principal>)
    ensures Holds(GateClause(gate, [c]), signers) <==> Holds(c, signers)
  {
    assert [c][0] == c;
    assert gate == AND || gate == OR;
  }

  lemma {:induction false} ChainMeans(l: Layout, signers: set<Principal>)
    requires Chain(l)
    ensures Holds(Tree(l), signers) <==> PrincipalAt(l) in signers
  {
    if l.GateAt? {
      ChainMeans(l.args[0], signers);
      assert Trees(l.args) == [Tree(l.args[0])];
      UnaryHolds(l.gate, Tree(l.args[0]), signers);
    }
  }

  /** A chain as it is read: its role if no blank is in it, else what an empty gate means. */
  predicate ReadHolds(l: Layout, signers: set<Principal>)
    requires Chain(l)
  {
    if PlainArgument(l) then PrincipalAt(l) in signers else EmptiedGate(l) == Some(AND)
  }

  lemma {:induction false} ReadingMeans(l: Layout, signers: set<Principal>)
    requires Chain(l)
    ensures Reading(l).Some? <==> Bare(l)
    ensures Bare(l) ==> (Holds(Reading(l).value, signers) <==> ReadHolds(l, signers))
    ensures PlainArgument(l) ==> EmptiedGate(l) == None
    ensures Bare(l) && !PlainArgument(l) ==> EmptiedGate(l).Some?
  {
    if l.GateAt? {
      var arg := l.args[0];
      ReadingMeans(arg, signers);
      assert l.args[1..] == [];
      assert Readings(l.args) == if Bare(arg) then [Reading(arg).value] else [];
      if Bare(arg) {
        UnaryHolds(l.gate, Reading(arg).value, signers);
      } else {
        assert Holds(GateClause(l.gate, []), signers) <==> l.gate == AND;
      }
    }
  }

  lemma HoldsFirst(c: Clause, cs: seq<Clause>, signers: set<Principal>)
    ensures Holds(GateClause(OR, [c] + cs), signers) <==> Holds(c, signers) || Holds(GateClause(OR, cs), signers)
    ensures Holds(GateClause(AND, [c] + cs), signers) <==> Holds(c, signers) && Holds(GateClause(AND, cs), signers)
  {
    var all := [c] + cs;
    assert all[0] == c && forall i | 0 <= i < |cs| :: all[i + 1] == cs[i];
    if i :| 0 <= i < |cs| && Holds(cs[i], signers) {
      assert Holds(all[i + 1], signers);
    }
    if i :| 0 <= i < |cs| && !Holds(cs[i], signers) {
      assert !Holds(all[i + 1], signers);
    }
  }

  /** An argument makes an OR hold, or lets an AND hold; dropped ones do the latter only. */
  predicate Grants(gate: Gate, l: Layout, signers: set<Principal>)
    requires Chain(l)
  {
    if Bare(l) then ReadHolds(l, signers) else gate == AND
  }

  predicate SomeGrants(args: seq<Layout>, signers: set<Principal>)
    requires AllChains(args)
  {
    exists i | 0 <= i < |args| :: Grants(OR, args[i], signers)
  }

  predicate AllGrant(args: seq<Layout>, signers: set<Principal>)
    requires AllChains(args)
  {
    forall i | 0 <= i < |args| :: Grants(AND, args[i], signers)
  }

  lemma GrantsFirst(args: seq<Layout>, signers: set<Principal>)
    requires args != [] && AllChains(args)
    ensures AllChains(args[1..])
    ensures SomeGrants(args, signers) <==> Grants(OR, args[0], signers) || SomeGrants(args[1..], signers)
    ensures AllGrant(args, signers) <==> Grants(AND, args[0], signers) && AllGrant(args[1..], signers)
  {
    assert forall i | 0 <= i < |args[1..]| :: args[1..][i] == args[i + 1];
    assert forall i | 1 <= i < |args| :: args[i] == args[1..][i - 1];
  }

  lemma {:induction false} ReadingsMean(args: seq<Layout>, signers: set<Principal>)
    requires AllChains(args)
    ensures Holds(GateClause(OR, Readings(args)), signers) <==> SomeGrants(args, signers)
    ensures Holds(GateClause(AND, Readings(args)), signers) <==> AllGrant(args, signers)
  {
    if args != [] {
      GrantsFirst(args, signers);
      ReadingsMean(args[1..], signers);
      ReadingMeans(args[0], signers);
      var rest := Readings(args[1..]);
      if Bare(args[0]) {
        assert Readings(args) == [Reading(args[0]).value] + rest;
        HoldsFirst(Reading(args[0]).value, rest, signers);
      } else {
        assert Readings(args) == rest;
      }
    }
  }

  lemma WrittenMeans(l: Layout, signers: set<Principal>)
    requires l.GateAt? && AllChains(l.args)
    ensures l.gate == OR ==>
              (Holds(Tree(l), signers) <==> exists i | 0 <= i < |l.args| :: PrincipalAt(l.args[i]) in signers)
    ensures l.gate == AND ==>
              (Holds(Tree(l), signers) <==> forall i | 0 <= i < |l.args| :: PrincipalAt(l.args[i]) in signers)
  {
    TreesAt(l.args);
    forall i | 0 <= i < |l.args|
      ensures Holds(Trees(l.args)[i], signers) <==> PrincipalAt(l.args[i]) in signers
    {
      ChainMeans(l.args[i], signers);
    }
  }

  lemma ArgumentFacts(args: seq<Layout>)
    requires AllChains(args)
    ensures forall i | 0 <= i < |args| :: PlainArgument(args[i]) ==> Bare(args[i]) && EmptiedGate(args[i]).None?
    ensures forall i | 0 <= i < |args| :: EmptiedGate(args[i]).Some? ==> Bare(args[i])
    ensures forall i | 0 <= i < |args| :: Bare(args[i]) ==> PlainArgument(args[i]) || EmptiedGate(args[i]).Some?
  {
    forall i | 0 <= i < |args|
      ensures PlainArgument(args[i]) ==> EmptiedGate(args[i]).None?
      ensures Bare(args[i]) && !PlainArgument(args[i]) ==> EmptiedGate(args[i]).Some?
    {
      ReadingMeans(args[i], {});
    }
  }

  /** The clause read for a policy of chains against the clause written. */
  predicate SameMeaning(l: Layout, signers: set<Principal>)
    requires l.GateAt?
  {
    Holds(GateClause(l.gate, Readings(l.args)), signers) <==> Holds(Tree(l), signers)
  }

  lemma HarmlessBlanksKeep(l: Layout, signers: set<Principal>)
    requires l.GateAt? && AllChains(l.args) && BlanksDoNoHarm(l)
    ensures SameMeaning(l, signers)
  {
    ReadingsMean(l.args, signers);
    WrittenMeans(l, signers);
    ArgumentFacts(l.args);
    var args := l.args;
    forall i | 0 <= i < |args| ensures StandsPlain(args, PrincipalAt(args[i])) {
    }
    if l.gate == OR {
      if i :| 0 <= i < |args| && PrincipalAt(args[i]) in signers {
        var j :| 0 <= j < |args| && PlainArgument(args[j]) && PrincipalAt(args[j]) == PrincipalAt(args[i]);
        assert Grants(OR, args[j], signers);
      }
    } else {
      if i :| 0 <= i < |args| && PrincipalAt(args[i]) !in signers {
        var j :| 0 <= j < |args| && PlainArgument(args[j]) && PrincipalAt(args[j]) == PrincipalAt(args[i]);
        assert !Grants(AND, args[j], signers);
      }
    }
  }

  /** The principals that stand in an argument without blanks. */
  function PlainPrincipals(args: seq<Layout>): set<Principal>
    requires AllChains(args)
  {
    set j | 0 <= j < |args| && PlainArgument(args[j]) :: PrincipalAt(args[j])
  }

  /** A set of principals on which a policy with harmful blanks is not what is written. */
  lemma HarmDone(l: Layout) returns (signers: set<Principal>)
    requires l.GateAt? && AllChains(l.args) && !BlanksDoNoHarm(l)
    ensures !SameMeaning(l, signers)
  {
    var args := l.args;
    ArgumentFacts(args);
    var all := set j | 0 <= j < |args| :: PrincipalAt(args[j]);
    if i :| 0 <= i < |args| && EmptiedGate(args[i]).Some? && EmptiedGate(args[i]).value != l.gate {
      signers := if l.gate == OR then {} else all;
      assert l.gate == OR ==> Grants(OR, args[i], signers);
      assert l.gate == AND ==> !Grants(AND, args[i], signers);
    } else {
      var i :| 0 <= i < |args| && !StandsPlain(args, PrincipalAt(args[i]));
      signers := if l.gate == OR then {PrincipalAt(args[i])} else PlainPrincipals(args);
      assert PrincipalAt(args[i]) !in PlainPrincipals(args);
      if l.gate == OR {
        forall j | 0 <= j < |args| ensures !Grants(OR, args[j], signers) {
        }
      } else {
        forall j | 0 <= j < |args| ensures Grants(AND, args[j], signers) {
        }
      }
    }
    ReadingsMean(args, signers);
    WrittenMeans(l, signers);
  }

  /**
   The exact law for meaning, over policies of any width and depth whose nested gates have one
   argument each: the built envelope means what is written iff the blanks do no harm. For a flat
   policy that is: every principal also stands in an argument without a blank beside it.
   */
  lemma MeaningKeptExactly(l: Layout)
    requires l.GateAt? && WellFormed(l) && Bare(l) && l.args != [] && AllChains(l.args)
    ensures MeansWhatIsWritten(l) <==> BlanksDoNoHarm(l)
  {
    ChainPolicyReading(l);
    forall signers: set<Principal>
      ensures (BuiltHolds(l, signers) <==> Holds(Tree(l), signers)) <==> SameMeaning(l, signers)
    {
      MeaningPreserved(Print(l), signers);
    }
    if BlanksDoNoHarm(l) {
      forall signers: set<Principal> ensures BuiltHolds(l, signers) <==> Holds(Tree(l), signers) {
        HarmlessBlanksKeep(l, signers);
      }
    } else {
      var signers := HarmDone(l);
      assert !SameMeaning(l, signers);
    }
  }

  /**
   `OR(AND('a.member','b.member','c.member'))`: the middle argument of the nested gate becomes an
   argument of the outer one, so its organisation alone satisfies the envelope.
   */
  lemma NestedGateLosesMeaning(a: string, b: string, c: string)
    requires Named(a) && Named(b) && Named(c) && a != b
    ensures var roles := [RoleAt("", a, MEMBER, ""), RoleAt("", b, MEMBER, ""), RoleAt("", c, MEMBER, "")];
            var l := GateAt("", OR, [GateAt("", AND, roles, "")], "");
            var signers := {PrincipalOf(b, MEMBER)};
            BuiltHolds(l, signers) && !Holds(Tree(l), signers)
  {
    var roles := [RoleAt("", a, MEMBER, ""), RoleAt("", b, MEMBER, ""), RoleAt("", c, MEMBER, "")];
    var nested := GateAt("", AND, roles, "");
    var l := GateAt("", OR, [nested], "");
    var signers := {PrincipalOf(b, MEMBER)};
    NestedGateIsCutUp(OR, AND, roles);
    assert roles[1..|roles| - 1] == [roles[1]];
    assert Trees([roles[1]])[0] == RoleClause(b, MEMBER);
    MeaningPreserved(Print(l), signers);
    assert Holds(ParsePolicy(Print(l)).value.subs[0], signers);
    assert Trees([nested])[0] == Tree(nested);
    assert Trees(roles)[0] == RoleClause(a, MEMBER);
    assert !Holds(Trees(roles)[0], signers);
    assert !Holds(Tree(nested), signers);
  }

  // ----- The same question for every accepted policy

  function LeafSet(c: Clause): set<Principal> { set p | p in Leaves(c) }

  lemma {:induction false} LeavesOfArgument(cs: seq<Clause>, i: nat)
    requires i < |cs|
    ensures forall p | p in Leaves(cs[i]) :: p in LeavesAll(cs)
  {
    if i > 0 {
      LeavesOfArgument(cs[1..], i - 1);
    }
  }

  /** Meaning is monotone, and looks at the principals of a clause only. */
  lemma {:induction false} MoreSigners(c: Clause, few: set<Principal>, more: set<Principal>)
    requires forall p | p in Leaves(c) && p in few :: p in more
    requires Holds(c, few)
    ensures Holds(c, more)
  {
    if c.GateClause? {
      forall i | 0 <= i < |c.subs| && Holds(c.subs[i], few) ensures Holds(c.subs[i], more) {
        LeavesOfArgument(c.subs, i);
        MoreSigners(c.subs[i], few, more);
      }
    }
  }

  predicate SomeResidue(c: Clause, r: Residue)
    requires c.GateClause? && AllAtMostUnary(c.subs)
  {
    exists i | 0 <= i < |c.subs| :: ResidueOf(c.subs[i]) == r
  }

  /** How an accepted policy is decided: outright, or by one or all of its principals. */
  lemma ReadMeans(read: Clause, signers: set<Principal>)
    requires read.GateClause? && AllAtMostUnary(read.subs)
    ensures read.gate == OR ==>
              (Holds(read, signers) <==> SomeResidue(read, Always) || exists p :: p in LeafSet(read) && p in signers)
    ensures read.gate == AND ==>
              (Holds(read, signers) <==> !SomeResidue(read, Never) && LeafSet(read) <= signers)
  {
    GateByResidues(read, signers);
    forall p ensures p in LeafSet(read) <==> SomeResidue(read, Leaf(p)) {
      LeavesAreResidues(read.subs, p);
    }
    if read.gate == OR {
      if i :| 0 <= i < |read.subs| && ResidueHolds(ResidueOf(read.subs[i]), signers) {
        if ResidueOf(read.subs[i]).Leaf? {
          assert SomeResidue(read, Leaf(ResidueOf(read.subs[i]).p));
        }
      }
    } else {
      if i :| 0 <= i < |read.subs| && !ResidueHolds(ResidueOf(read.subs[i]), signers) {
        if ResidueOf(read.subs[i]).Leaf? {
          assert SomeResidue(read, Leaf(ResidueOf(read.subs[i]).p));
        }
      }
    }
  }

  /**
   A check that evaluates the written tree on finitely many sets: for an OR on each principal that
   was read, alone, and on all that were not read; for an AND on those that were read, and on all
   but one of them.
   */
  predicate PassesCheck(written: Clause, read: Clause)
    requires read.GateClause? && AllAtMostUnary(read.subs)
  {
    match read.gate
    case OR =>
      if SomeResidue(read, Always) then Holds(written, {})
      else
        && (forall p | p in Leaves(read) :: Holds(written, {p}))
        && !Holds(written, LeafSet(written) - LeafSet(read))
    case AND =>
      if SomeResidue(read, Never) then !Holds(written, LeafSet(written))
      else
        && Holds(written, LeafSet(read))
        && forall p | p in Leaves(read) :: !Holds(written, LeafSet(written) - {p})
  }

  lemma CheckedAgrees(written: Clause, read: Clause, signers: set<Principal>)
    requires read.GateClause? && AllAtMostUnary(read.subs) && PassesCheck(written, read)
    ensures Holds(read, signers) <==> Holds(written, signers)
  {
    ReadMeans(read, signers);
    if read.gate == OR {
      if SomeResidue(read, Always) {
        MoreSigners(written, {}, signers);
      } else if p :| p in LeafSet(read) && p in signers {
        MoreSigners(written, {p}, signers);
      } else if Holds(written, signers) {
        MoreSigners(written, signers, LeafSet(written) - LeafSet(read));
      }
    } else if SomeResidue(read, Never) {
      if Holds(written, signers) {
        MoreSigners(written, signers, LeafSet(written));
      }
    } else if LeafSet(read) <= signers {
      MoreSigners(written, LeafSet(read), signers);
    } else if Holds(written, signers) {
      var p :| p in LeafSet(read) && p !in signers;
      MoreSigners(written, signers, LeafSet(written) - {p});
    }
  }

  /** A set of principals on which a policy that fails the check is not what is written. */
  lemma UncheckedDiffers(written: Clause, read: Clause) returns (signers: set<Principal>)
    requires read.GateClause? && AllAtMostUnary(read.subs) && !PassesCheck(written, read)
    ensures Holds(read, signers) != Holds(written, signers)
  {
    if read.gate == OR {
      if SomeResidue(read, Always) {
        signers := {};
      } else if p :| p in Leaves(read) && !Holds(written, {p}) {
        signers := {p};
        assert p in LeafSet(read) && p in signers;
      } else {
        signers := LeafSet(written) - LeafSet(read);
      }
    } else {
      if SomeResidue(read, Never) {
        signers := LeafSet(written);
      } else if p :| p in Leaves(read) && Holds(written, LeafSet(written) - {p}) {
        signers := LeafSet(written) - {p};
        assert p in LeafSet(read);
      } else {
        signers := LeafSet(read);
      }
    }
    ReadMeans(read, signers);
  }

  /**
   For every policy `FromString` accepts, nested gates of any number of arguments included: that
   the built envelope means what is written, for all sets of principals, is decided by the check of
   the written tree against the reading of the written policy's pieces.
   */
  lemma MeaningKeptIffChecked(l: Layout)
    requires l.GateAt? && WellFormed(l) && Bare(l) && l.args != [] && NoDashes(l)
    ensures AllAtMostUnary(AsRead(l).subs)
    ensures MeansWhatIsWritten(l) <==> PassesCheck(Tree(l), AsRead(l))
  {
    WrittenReading(l);
    PiecesAreUnary(PiecesAll(l.args));
    var read := AsRead(l);
    forall signers: set<Principal> ensures BuiltHolds(l, signers) <==> Holds(read, signers) {
      MeaningPreserved(Print(l), signers);
    }
    if PassesCheck(Tree(l), read) {
      forall signers: set<Principal> ensures BuiltHolds(l, signers) <==> Holds(Tree(l), signers) {
        CheckedAgrees(Tree(l), read, signers);
      }
    } else {
      var signers := UncheckedDiffers(Tree(l), read);
    }
  }
}
