/**
 Policy texts as a person writes them, and exactly which of them the text layer reads correctly.
 A `Layout` is a clause tree together with the blanks around each of its arguments.
 */
module GateLayout {
  import opened Text
  import opened GateSyntax

  datatype Layout =
    | RoleAt(lead: string, mspid: string, role: Role, trail: string)
    | GateAt(lead: string, gate: Gate, args: seq<Layout>, trail: string)

  function Print(l: Layout): string
    decreases l, 1
  {
    match l
    case RoleAt(lead, mspid, role, trail) => lead + Quoted(RoleKey(mspid, role)) + trail
    case GateAt(lead, gate, args, trail) =>
      lead + GateItem(gate, Join(Prints(args), ',')) + trail
  }

  function Prints(ls: seq<Layout>): (r: seq<string>)
    ensures |r| == |ls|
    decreases ls, 0
  {
    if ls == [] then [] else [Print(ls[0])] + Prints(ls[1..])
  }

  /** The tree the writer means. */
  function Tree(l: Layout): Clause
    decreases l, 1
  {
    match l
    case RoleAt(_, mspid, role, _) => RoleClause(mspid, role)
    case GateAt(_, gate, args, _) => GateClause(gate, Trees(args))
  }

  function Trees(ls: seq<Layout>): (r: seq<Clause>)
    ensures |r| == |ls|
    decreases ls, 0
  {
    if ls == [] then [] else [Tree(ls[0])] + Trees(ls[1..])
  }

  lemma {:induction false} PrintsAt(ls: seq<Layout>)
    ensures forall i | 0 <= i < |ls| :: Prints(ls)[i] == Print(ls[i])
  {
    if ls != [] {
      PrintsAt(ls[1..]);
    }
  }

  lemma {:induction false} TreesAt(ls: seq<Layout>)
    ensures forall i | 0 <= i < |ls| :: Trees(ls)[i] == Tree(ls[i])
  {
    if ls != [] {
      TreesAt(ls[1..]);
    }
  }

  /** Legal policy text: blanks are blanks, and MSP ids are those the role pattern takes. */
  predicate WellFormed(l: Layout) {
    && AllSpace(l.lead)
    && AllSpace(l.trail)
    && match l
       case RoleAt(_, mspid, _, _) => Mspid(mspid)
       case GateAt(_, _, args, _) => forall i | 0 <= i < |args| :: WellFormed(args[i])
  }

  /** No blank stands beside it. */
  predicate Bare(l: Layout) { l.lead == "" && l.trail == "" }

  /** No MSP id in it holds a dash. */
  predicate NoDashes(l: Layout) {
    match l
    case RoleAt(_, mspid, _, _) => '-' !in mspid
    case GateAt(_, _, args, _) => forall i | 0 <= i < |args| :: NoDashes(args[i])
  }

  /** An argument without dashes in which every gate has exactly one argument; blanks may stand anywhere. */
  predicate Chain(l: Layout) {
    match l
    case RoleAt(_, mspid, _, _) => '-' !in mspid
    case GateAt(_, _, args, _) => |args| == 1 && Chain(args[0])
  }

  /** A chain without blanks. */
  predicate PlainArgument(l: Layout) {
    && Bare(l)
    && match l
       case RoleAt(_, mspid, _, _) => '-' !in mspid
       case GateAt(_, _, args, _) => |args| == 1 && PlainArgument(args[0])
  }

  /** A policy of one or more plain arguments. */
  predicate Plain(l: Layout) {
    l.GateAt? && Bare(l) && l.args != []
    && forall i | 0 <= i < |l.args| :: PlainArgument(l.args[i])
  }

  // ----- Characters of a printed layout

  lemma SpacesHaveNo(s: string, c: char)
    requires AllSpace(s) && !IsSpace(c)
    ensures c !in s
  {
  }

  lemma RoleTextChars(role: Role)
    ensures ',' !in RoleText(role) && '-' !in RoleText(role) && GateBody(RoleText(role))
  {
    assert RoleText(role) in ["member", "admin", "client", "peer", "orderer"];
  }

  /** A well-formed layout whose gates are all at most unary prints without a comma. */
  lemma {:induction false} UnaryPrintsNoComma(l: Layout)
    requires WellFormed(l) && AtMostUnary(Tree(l))
    ensures ',' !in Print(l)
  {
    SpacesHaveNo(l.lead, ',');
    SpacesHaveNo(l.trail, ',');
    match l
    case RoleAt(_, mspid, role, _) =>
      RoleTextChars(role);
    case GateAt(_, gate, args, _) =>
      if |args| == 1 {
        assert AtMostUnary(Trees(args)[0]);
        UnaryPrintsNoComma(args[0]);
        assert Join(Prints(args), ',') == Print(args[0]);
      }
  }

  lemma {:induction false} ChainIsUnary(l: Layout)
    requires Chain(l)
    ensures AtMostUnary(Tree(l)) && NoDashes(l)
  {
    if l.GateAt? {
      ChainIsUnary(l.args[0]);
      assert Trees(l.args)[0] == Tree(l.args[0]);
    }
  }

  lemma {:induction false} PlainIsChain(l: Layout)
    requires PlainArgument(l)
    ensures Chain(l)
  {
    if l.GateAt? {
      PlainIsChain(l.args[0]);
    }
  }

  lemma PrintNotEmpty(l: Layout)
    ensures Print(l) != ""
  {
  }

  lemma BodyOfThree(a: string, b: string, c: string)
    ensures GateBody(a + b + c) <==> GateBody(a) && GateBody(b) && GateBody(c)
  {
    assert forall x | x in a :: x in a + b + c;
    assert forall x | x in b :: x in a + b + c;
    assert forall x | x in c :: x in a + b + c;
  }

  lemma GateItemBody(gate: Gate, body: string)
    ensures GateBody(GateItem(gate, body)) <==> GateBody(body)
  {
    assert GateBody(GateWord(gate) + "(") && GateBody(")");
    BodyOfThree(GateWord(gate) + "(", body, ")");
  }

  lemma RoleItemBody(mspid: string, role: Role)
    requires Mspid(mspid)
    ensures GateBody(Quoted(RoleKey(mspid, role))) <==> '-' !in mspid
  {
    RoleTextChars(role);
    assert !GateBodyChar('-') && GateBody("'") && GateBody(".");
    BodyOfThree("'", RoleKey(mspid, role), "'");
    BodyOfThree(mspid, ".", RoleText(role));
    assert GateBody(mspid) <==> '-' !in mspid by {
      assert forall c | c in mspid :: GateBodyChar(c) || c == '-';
    }
  }

  /** The characters of a text fit the gate pattern exactly when it has no dash. */
  lemma {:induction false} BodyExactly(l: Layout)
    requires WellFormed(l)
    ensures GateBody(Print(l)) <==> NoDashes(l)
  {
    match l
    case RoleAt(lead, mspid, role, trail) =>
      RoleItemBody(mspid, role);
      BodyOfThree(lead, Quoted(RoleKey(mspid, role)), trail);
    case GateAt(lead, gate, args, trail) =>
      var body := Join(Prints(args), ',');
      forall i | 0 <= i < |args| ensures GateBody(Print(args[i])) <==> NoDashes(args[i]) {
        BodyExactly(args[i]);
      }
      JoinBody(args);
      GateItemBody(gate, body);
      BodyOfThree(lead, GateItem(gate, body), trail);
  }

  lemma {:induction false} JoinedBody(parts: seq<string>)
    ensures GateBody(Join(parts, ',')) <==> forall i | 0 <= i < |parts| :: GateBody(parts[i])
    ensures parts != [] && parts[0] != "" ==> Join(parts, ',') != ""
  {
    if |parts| > 1 {
      JoinedBody(parts[1..]);
      BodyOfThree(parts[0], ",", Join(parts[1..], ','));
      assert forall i | 1 <= i < |parts| :: parts[i] == parts[1..][i - 1];
      assert forall i | 0 <= i < |parts| - 1 :: parts[1..][i] == parts[i + 1];
    }
  }

  lemma JoinBody(args: seq<Layout>)
    ensures GateBody(Join(Prints(args), ',')) <==> forall i | 0 <= i < |args| :: GateBody(Print(args[i]))
    ensures Join(Prints(args), ',') != "" <==> args != []
  {
    PrintsAt(args);
    JoinedBody(Prints(args));
    if args != [] {
      PrintNotEmpty(args[0]);
    }
  }

  lemma BodiesExactly(args: seq<Layout>)
    requires forall i | 0 <= i < |args| :: WellFormed(args[i])
    ensures GateBody(Join(Prints(args), ',')) <==> forall i | 0 <= i < |args| :: NoDashes(args[i])
    ensures Join(Prints(args), ',') != "" <==> args != []
  {
    forall i | 0 <= i < |args| ensures GateBody(Print(args[i])) <==> NoDashes(args[i]) {
      BodyExactly(args[i]);
    }
    JoinBody(args);
  }

  // ----- Plain policies are read as written

  /** What the text layer makes of a chain: nothing if a blank stands beside it, and so on inside. */
  function Reading(l: Layout): Option<Clause>
    decreases l, 1
  {
    if !Bare(l) then None
    else
      match l
      case RoleAt(_, mspid, role, _) => Some(RoleClause(mspid, role))
      case GateAt(_, gate, args, _) => Some(GateClause(gate, Readings(args)))
  }

  function Readings(ls: seq<Layout>): seq<Clause>
    decreases ls, 0
  {
    if ls == [] then []
    else AsSeq(Reading(ls[0])) + Readings(ls[1..])
  }

  lemma {:induction false} ChainReading(l: Layout)
    requires WellFormed(l) && Chain(l)
    ensures ',' !in Print(l) && GateBody(Print(l)) && Print(l) != ""
    ensures ParseItem(Print(l)) == Reading(l)
  {
    ChainIsUnary(l);
    UnaryPrintsNoComma(l);
    BodyExactly(l);
    PrintNotEmpty(l);
    match l
    case RoleAt(lead, mspid, role, trail) =>
      RolePatternExact(Quoted(RoleKey(mspid, role)), mspid, role);
      PaddedItem(lead, Quoted(RoleKey(mspid, role)), trail);
    case GateAt(lead, gate, args, trail) =>
      ChainReading(args[0]);
      ReadingsParse(args);
      GateItemParses(gate, Join(Prints(args), ','));
      PaddedItem(lead, GateItem(gate, Join(Prints(args), ',')), trail);
  }

  lemma PlainRolePrint(l: Layout)
    requires l.RoleAt? && Bare(l)
    ensures Print(l) == Quoted(RoleKey(l.mspid, l.role))
  {
  }

  /** The text of one role, on its own. */
  lemma BareRole(mspid: string, role: Role)
    requires Mspid(mspid) && '-' !in mspid
    ensures var item := Quoted(RoleKey(mspid, role));
            ',' !in item && GateBody(item) && item != "" && ParseItem(item) == Some(RoleClause(mspid, role))
  {
    var bare := RoleAt("", mspid, role, "");
    ChainReading(bare);
    PlainRolePrint(bare);
  }

  lemma ReadingsParse(args: seq<Layout>)
    requires args != []
    requires forall i | 0 <= i < |args| :: ',' !in Print(args[i]) && GateBody(Print(args[i]))
    requires forall i | 0 <= i < |args| :: ParseItem(Print(args[i])) == Reading(args[i])
    ensures ParseItems(Split(Join(Prints(args), ','), ',')) == Readings(args)
    ensures Join(Prints(args), ',') != "" && GateBody(Join(Prints(args), ','))
  {
    PrintsAt(args);
    JoinBody(args);
    SplitJoin(Prints(args), ',');
    ReadItems(args);
  }

  lemma {:induction false} ReadItems(args: seq<Layout>)
    requires forall i | 0 <= i < |args| :: ParseItem(Print(args[i])) == Reading(args[i])
    ensures ParseItems(Prints(args)) == Readings(args)
  {
    if args != [] {
      assert forall i | 0 <= i < |args[1..]| :: args[1..][i] == args[i + 1];
      ReadItems(args[1..]);
      FirstItem(Print(args[0]), Prints(args[1..]));
    }
  }

  lemma PaddedItem(lead: string, item: string, trail: string)
    requires AllSpace(lead) && AllSpace(trail) && item != ""
    ensures ParseItem(lead + item + trail) == if lead == "" && trail == "" then ParseItem(item) else None
  {
    if lead != "" || trail != "" {
      BlankEnds(lead, item, trail);
      BlankEndsMatchNothing(lead + item + trail);
    } else {
      assert lead + item + trail == item;
    }
  }

  lemma BareGate(l: Layout)
    requires l.GateAt? && Bare(l)
    ensures Print(l) == GateItem(l.gate, Join(Prints(l.args), ','))
  {
  }

  /** A policy of chains, of any width and depth, is always accepted, and read argument by argument. */
  lemma ChainPolicyReading(l: Layout)
    requires l.GateAt? && Bare(l) && l.args != []
    requires forall i | 0 <= i < |l.args| :: WellFormed(l.args[i]) && Chain(l.args[i])
    ensures ParsePolicy(Print(l)) == Some(GateClause(l.gate, Readings(l.args)))
  {
    forall i | 0 <= i < |l.args|
      ensures ',' !in Print(l.args[i]) && GateBody(Print(l.args[i]))
      ensures ParseItem(Print(l.args[i])) == Reading(l.args[i])
    {
      ChainReading(l.args[i]);
    }
    ReadingsParse(l.args);
    BareGate(l);
    GateItemParses(l.gate, Join(Prints(l.args), ','));
  }

  lemma {:induction false} PlainReading(l: Layout)
    requires PlainArgument(l)
    ensures Reading(l) == Some(Tree(l))
  {
    if l.GateAt? {
      PlainReading(l.args[0]);
      assert Readings(l.args[1..]) == [] && Trees(l.args[1..]) == [];
    }
  }

  lemma {:induction false} PlainReadings(args: seq<Layout>)
    requires forall i | 0 <= i < |args| :: PlainArgument(args[i])
    ensures Readings(args) == Trees(args)
  {
    if args != [] {
      PlainReading(args[0]);
      PlainReadings(args[1..]);
    }
  }

  lemma PlainParses(l: Layout)
    requires WellFormed(l) && Plain(l)
    ensures ParsePolicy(Print(l)) == Some(Tree(l))
  {
    forall i | 0 <= i < |l.args| ensures Chain(l.args[i]) {
      PlainIsChain(l.args[i]);
    }
    ChainPolicyReading(l);
    PlainReadings(l.args);
  }

  // ----- and only plain policies are

  /** A gate that is matched has no blanks around it, and the match is its printed body. */
  lemma MatchedGate(l: Layout)
    requires l.GateAt? && WellFormed(l) && MatchGate(Print(l)).Some?
    ensures l.lead == "" && l.trail == ""
    ensures MatchGate(Print(l)) == Some(GateMatch(l.gate, Join(Prints(l.args), ',')))
    ensures Join(Prints(l.args), ',') != "" && l.args != []
    ensures GateBody(Join(Prints(l.args), ','))
  {
    MatchedItem(l.lead, l.gate, Join(Prints(l.args), ','), l.trail);
  }

  lemma MatchedItem(lead: string, gate: Gate, body: string, trail: string)
    requires AllSpace(lead) && AllSpace(trail)
    requires MatchGate(lead + GateItem(gate, body) + trail).Some?
    ensures lead == "" && trail == ""
    ensures MatchGate(GateItem(gate, body)) == Some(GateMatch(gate, body))
    ensures MatchGate(lead + GateItem(gate, body) + trail) == Some(GateMatch(gate, body))
    ensures body != "" && GateBody(body)
  {
    var s := lead + GateItem(gate, body) + trail;
    GateEnds(s);
    BlankEnds(lead, GateItem(gate, body), trail);
    assert s == GateItem(gate, body);
    var m := MatchGate(s).value;
    GatePatternExact(s, m.gate, m.body);
    GateItemInjective(gate, body, m.gate, m.body);
  }

  lemma BlankEnds(lead: string, item: string, trail: string)
    requires AllSpace(lead) && AllSpace(trail) && item != ""
    ensures lead != "" ==> IsSpace((lead + item + trail)[0])
    ensures trail != "" ==> IsSpace((lead + item + trail)[|lead + item + trail| - 1])
  {
    if lead != "" {
      assert (lead + item + trail)[0] == lead[0] && lead[0] in lead;
    }
    if trail != "" {
      assert (lead + item + trail)[|lead + item + trail| - 1] == trail[|trail| - 1];
      assert trail[|trail| - 1] in trail;
    }
  }

  /**
   When a written policy is accepted: no blank stands around it, it has an argument, and no MSP id
   at any depth holds a dash. Everything else makes `FromString` throw.
   */
  lemma AcceptedExactly(l: Layout)
    requires l.GateAt? && WellFormed(l)
    ensures ParsePolicy(Print(l)).Some? <==> Bare(l) && l.args != [] && NoDashes(l)
  {
    BodiesExactly(l.args);
    if MatchGate(Print(l)).Some? {
      MatchedGate(l);
    }
    if Bare(l) && l.args != [] && NoDashes(l) {
      BareGate(l);
      GateItemParses(l.gate, Join(Prints(l.args), ','));
    }
  }

  lemma {:induction false} OnlyPlainArguments(l: Layout)
    requires WellFormed(l) && AtMostUnary(Tree(l)) && GateBody(Print(l))
    requires ParseItem(Print(l)) == Some(Tree(l))
    ensures PlainArgument(l)
  {
    match l
    case RoleAt(lead, mspid, role, trail) =>
      RolePatternExact(Print(l), mspid, role);
      NoBlanksNoDash(l);
    case GateAt(_, _, args, _) =>
      MatchedGate(l);
      assert |args| == |Trees(args)| == 1;
      TreesAt(args);
      UnaryPrintsNoComma(args[0]);
      var item := Print(args[0]);
      assert Prints(args) == [item];
      SplitWhole(item, ',');
      assert ParseItems([item]) == Trees(args);
      ParseItemsPrefix([item]);
      OnlyPlainArguments(args[0]);
  }

  lemma NoBlanksNoDash(l: Layout)
    requires l.RoleAt? && WellFormed(l) && GateBody(Print(l))
    requires Print(l) == Quoted(RoleKey(l.mspid, l.role))
    ensures PlainArgument(l)
  {
    assert |Print(l)| == |l.lead| + |Quoted(RoleKey(l.mspid, l.role))| + |l.trail|;
    assert forall c | c in l.mspid :: c in RoleKey(l.mspid, l.role) && c in Print(l);
    assert !GateBodyChar('-');
  }

  lemma OnlyPlain(l: Layout)
    requires l.GateAt? && WellFormed(l)
    requires ParsePolicy(Print(l)) == Some(Tree(l))
    ensures Plain(l)
  {
    PrintsAt(l.args);
    TreesAt(l.args);
    MatchedGate(l);
    JoinBody(l.args);
    var prints := Prints(l.args);
    AcceptedShape(Print(l));
    forall i | 0 <= i < |prints| ensures ',' !in prints[i] {
      assert AtMostUnary(Trees(l.args)[i]);
      UnaryPrintsNoComma(l.args[i]);
    }
    SplitJoin(prints, ',');
    assert ParseItems(prints) == Trees(l.args);
    ParseItemsPrefix(prints);
    forall i | 0 <= i < |l.args| ensures PlainArgument(l.args[i]) {
      assert AtMostUnary(Trees(l.args)[i]);
      OnlyPlainArguments(l.args[i]);
    }
  }

  /**
   The print/parse law, for every policy text over the documented grammar. It holds exactly on
   the plain policies: no blanks, no dashes, and a single argument in every nested gate.
   */
  lemma ReadsBackExactlyPlain(l: Layout)
    requires l.GateAt? && WellFormed(l)
    ensures ParsePolicy(Print(l)) == Some(Tree(l)) <==> Plain(l)
  {
    if Plain(l) {
      PlainParses(l);
    }
    if ParsePolicy(Print(l)) == Some(Tree(l)) {
      OnlyPlain(l);
    }
  }

  // ----- What happens outside the plain policies

  /** The arguments of a flat policy that have no blank beside them. */
  function Unpadded(args: seq<Layout>): seq<Layout> {
    if args == [] then []
    else (if Bare(args[0]) then [args[0]] else []) + Unpadded(args[1..])
  }

  /**
   A flat policy is always accepted, and read as if every argument with a blank beside it were
   not there. The usual `OR('Org1MSP.member', 'Org2MSP.member')` therefore names Org1MSP only.
   */
  lemma FlatPolicyReading(l: Layout)
    requires l.GateAt? && WellFormed(l) && Bare(l) && l.args != []
    requires forall i | 0 <= i < |l.args| :: l.args[i].RoleAt? && '-' !in l.args[i].mspid
    ensures ParsePolicy(Print(l)) == Some(GateClause(l.gate, Trees(Unpadded(l.args))))
  {
    ChainPolicyReading(l);
    FlatReadings(l.args);
  }

  lemma {:induction false} FlatReadings(args: seq<Layout>)
    requires forall i | 0 <= i < |args| :: args[i].RoleAt?
    ensures Readings(args) == Trees(Unpadded(args))
  {
    if args != [] {
      FlatReadings(args[1..]);
      FirstUnpadded(args);
    }
  }

  lemma FirstUnpadded(args: seq<Layout>)
    requires args != []
    ensures Trees(Unpadded(args)) == (if Bare(args[0]) then [Tree(args[0])] else []) + Trees(Unpadded(args[1..]))
  {
    var rest := Unpadded(args[1..]);
    assert ([args[0]] + rest)[1..] == rest && [] + rest == rest;
  }
}
