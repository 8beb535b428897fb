/** What an accepted policy amounts to: its nested gates are chains that end in a role or in nothing. */
module GateResidue {
  import opened GateSyntax
  import opened GatePolicy

  datatype Residue = Leaf(p: Principal) | Always | Never

  /** A chain of unary gates ends in a role, or in an AND or an OR of nothing. */
  function ResidueOf(c: Clause): Residue
    requires AtMostUnary(c)
  {
    match c
    case RoleClause(mspid, role) => Leaf(PrincipalOf(mspid, role))
    case GateClause(gate, subs) =>
      if |subs| == 1 then ResidueOf(subs[0]) else if gate == AND then Always else Never
  }

  predicate ResidueHolds(r: Residue, signers: set<Principal>) {
    match r
    case Leaf(p) => p in signers
    case Always => true
    case Never => false
  }

  lemma {:induction false} ResidueMeaning(c: Clause, signers: set<Principal>)
    requires AtMostUnary(c)
    ensures Holds(c, signers) <==> ResidueHolds(ResidueOf(c), signers)
    ensures Leaves(c) == match ResidueOf(c) case Leaf(p) => [p] case _ => []
  {
    if c.GateClause? && |c.subs| == 1 {
      ResidueMeaning(c.subs[0], signers);
      assert LeavesAll(c.subs[1..]) == [];
      assert Leaves(c) == Leaves(c.subs[0]) + LeavesAll(c.subs[1..]);
    }
  }

  predicate AllAtMostUnary(cs: seq<Clause>) { forall i | 0 <= i < |cs| :: AtMostUnary(cs[i]) }

  /** A principal occurs in a policy when some argument comes down to it. */
  lemma {:induction false} LeavesAreResidues(cs: seq<Clause>, p: Principal)
    requires AllAtMostUnary(cs)
    ensures p in LeavesAll(cs) <==> exists i | 0 <= i < |cs| :: ResidueOf(cs[i]) == Leaf(p)
  {
    if cs != [] {
      ResidueMeaning(cs[0], {});
      LeavesAreResidues(cs[1..], p);
      assert forall i | 1 <= i < |cs| :: cs[i] == cs[1..][i - 1];
      if exists i | 0 <= i < |cs[1..]| :: ResidueOf(cs[1..][i]) == Leaf(p) {
        var i :| 0 <= i < |cs[1..]| && ResidueOf(cs[1..][i]) == Leaf(p);
        assert ResidueOf(cs[i + 1]) == Leaf(p);
      }
    }
  }

  /** A gate over such arguments, by what they amount to. */
  lemma GateByResidues(c: Clause, signers: set<Principal>)
    requires c.GateClause? && AllAtMostUnary(c.subs)
    ensures c.gate == OR ==>
              (Holds(c, signers) <==> exists i | 0 <= i < |c.subs| :: ResidueHolds(ResidueOf(c.subs[i]), signers))
    ensures c.gate == AND ==>
              (Holds(c, signers) <==> forall i | 0 <= i < |c.subs| :: ResidueHolds(ResidueOf(c.subs[i]), signers))
  {
    forall i | 0 <= i < |c.subs|
      ensures Holds(c.subs[i], signers) <==> ResidueHolds(ResidueOf(c.subs[i]), signers)
    {
      ResidueMeaning(c.subs[i], signers);
    }
  }
}
