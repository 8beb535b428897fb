/**
 The text layer of the endorsement-policy compiler: the two patterns, the split at commas and
 the recursion, which together turn `AND(...)`/`OR(...)` text into a clause tree.
 */
module GateSyntax {
  import opened Text

  datatype Gate = AND | OR
  datatype Role = MEMBER | ADMIN | CLIENT | PEER | ORDERER

  /** What `FromString` understands of a text. */
  datatype Clause =
    | RoleClause(mspid: string, role: Role)
    | GateClause(gate: Gate, subs: seq<Clause>)

  function GateWord(g: Gate): string {
    match g
    case AND => "AND"
    case OR => "OR"
  }

  /** The role alternatives of `RoleClausePattern`. */
  function RoleText(r: Role): string {
    match r
    case MEMBER => "member"
    case ADMIN => "admin"
    case CLIENT => "client"
    case PEER => "peer"
    case ORDERER => "orderer"
  }

  function RoleOf(s: string): Option<Role> {
    if s == "member" then Some(MEMBER)
    else if s == "admin" then Some(ADMIN)
    else if s == "client" then Some(CLIENT)
    else if s == "peer" then Some(PEER)
    else if s == "orderer" then Some(ORDERER)
    else None
  }

  lemma RoleTextExact(s: string, r: Role)
    ensures RoleOf(s) == Some(r) <==> s == RoleText(r)
    ensures '.' !in RoleText(r)
  {
    assert RoleText(r) in ["member", "admin", "client", "peer", "orderer"];
  }

  /** `[\w,.\s()']` */
  predicate GateBodyChar(c: char) {
    IsWord(c) || c == ',' || c == '.' || c == '(' || c == ')' || c == '\'' || IsSpace(c)
  }

  predicate GateBody(s: string) { forall c | c in s :: GateBodyChar(c) }

  /** `[0-9A-Za-z.-]` */
  predicate MspidChar(c: char) { IsLetter(c) || IsDigit(c) || c == '.' || c == '-' }

  /** The characters of an MSP id, written out, and those a gate's body takes besides. */
  lemma MspidCharacters(c: char)
    ensures MspidChar(c) <==> c in {
                'A', 'B', 'C', 'D', 'E', 'F', 'G', 'H', 'I', 'J', 'K', 'L', 'M', 'N', 'O', 'P',
                'Q', 'R', 'S', 'T', 'U', 'V', 'W', 'X', 'Y', 'Z', 'a', 'b', 'c', 'd', 'e', 'f',
                'g', 'h', 'i', 'j', 'k', 'l', 'm', 'n', 'o', 'p', 'q', 'r', 's', 't', 'u', 'v',
                'w', 'x', 'y', 'z', '0', '1', '2', '3', '4', '5', '6', '7', '8', '9', '.', '-'}
  {
    LettersAndDigits(c);
  }

  lemma BodyCharacters(c: char)
    ensures GateBodyChar(c) <==>
              (MspidChar(c) && c != '-') || c in {'_', ',', '(', ')', '\''} || IsSpace(c)
  {
  }

  predicate Mspid(s: string) { s != "" && forall c | c in s :: MspidChar(c) }

  datatype GateMatch = GateMatch(gate: Gate, body: string)
  datatype RoleMatch = RoleMatch(mspid: string, role: Role)

  /** `clause.match(GateClausePattern)` */
  function MatchGate(s: string): Option<GateMatch> {
    var gate := if "AND(" <= s then AND else OR;
    var k := |GateWord(gate)| + 1;
    if GateWord(gate) + "(" <= s && |s| >= k + 2 && s[|s| - 1] == ')' && GateBody(s[k..|s| - 1])
    then Some(GateMatch(gate, s[k..|s| - 1]))
    else None
  }

  function GateItem(gate: Gate, body: string): string { GateWord(gate) + "(" + body + ")" }

  /** The computed match is the only one the pattern allows. */
  lemma GatePatternExact(s: string, gate: Gate, body: string)
    ensures MatchGate(s) == Some(GateMatch(gate, body))
            <==> s == GateItem(gate, body) && body != "" && GateBody(body)
  {
    var k := |GateWord(gate)| + 1;
    if s == GateItem(gate, body) {
      assert s[..k] == GateWord(gate) + "(";
      assert s[k..|s| - 1] == body;
      assert s[0] == GateWord(gate)[0];
      assert gate == OR ==> !("AND(" <= s);
    }
    if MatchGate(s) == Some(GateMatch(gate, body)) {
      assert s == s[..k] + s[k..|s| - 1] + ")";
    }
  }

  /** The part of `s` after its last dot starts here; 0 when there is no dot. */
  function AfterLastDot(s: string): (k: nat)
    ensures k <= |s|
    ensures '.' !in s[k..]
    ensures k > 0 ==> s[k - 1] == '.'
    ensures k == 0 ==> '.' !in s
  {
    if s == "" then 0
    else if s[|s| - 1] == '.' then |s|
    else
      var k := AfterLastDot(s[..|s| - 1]);
      assert s[k..] == s[..|s| - 1][k..] + [s[|s| - 1]];
      k
  }

  /** `clause.match(RoleClausePattern)`: the greedy MSP id leaves the role after the last dot. */
  function MatchRole(s: string): Option<RoleMatch> {
    if |s| < 2 || s[0] != '\'' || s[|s| - 1] != '\'' then None
    else
      var inner := s[1..|s| - 1];
      var k := AfterLastDot(inner);
      if k == 0 || !Mspid(inner[..k - 1]) || RoleOf(inner[k..]) == None then None
      else Some(RoleMatch(inner[..k - 1], RoleOf(inner[k..]).value))
  }

  lemma {:induction false} LastDotUnique(m: string, r: string)
    requires '.' !in r
    ensures AfterLastDot(m + "." + r) == |m| + 1
  {
    var s := m + "." + r;
    if r == "" {
      assert s[|s| - 1] == '.';
    } else {
      assert s[|s| - 1] == r[|r| - 1];
      assert s[..|s| - 1] == m + "." + r[..|r| - 1];
      LastDotUnique(m, r[..|r| - 1]);
    }
  }

  /** The identity table is keyed by this text; it determines the MSP id and the role. */
  function RoleKey(mspid: string, role: Role): string { mspid + "." + RoleText(role) }

  function Quoted(inner: string): string { "'" + inner + "'" }

  /** The computed match is the only one the pattern allows. */
  lemma RolePatternExact(s: string, mspid: string, role: Role)
    ensures MatchRole(s) == Some(RoleMatch(mspid, role))
            <==> s == Quoted(RoleKey(mspid, role)) && Mspid(mspid)
  {
    if s == Quoted(RoleKey(mspid, role)) {
      RoleItemMatches(mspid, role);
    }
    if MatchRole(s) == Some(RoleMatch(mspid, role)) {
      RoleMatchPrints(s);
    }
  }

  lemma RoleItemMatches(mspid: string, role: Role)
    ensures MatchRole(Quoted(RoleKey(mspid, role)))
            == if Mspid(mspid) then Some(RoleMatch(mspid, role)) else None
  {
    var inner := RoleKey(mspid, role);
    Unquote(inner);
    RoleTextExact(RoleText(role), role);
    LastDotUnique(mspid, RoleText(role));
    CutAt(mspid, RoleText(role));
  }

  /** A role without an MSP id matches nothing. */
  lemma NoEmptyMspid(role: Role)
    ensures MatchRole(Quoted("." + RoleText(role))) == None
  {
    RoleItemMatches("", role);
    assert RoleKey("", role) == "." + RoleText(role);
  }

  lemma Unquote(inner: string)
    ensures var s := Quoted(inner);
            |s| >= 2 && s[0] == '\'' && s[|s| - 1] == '\'' && s[1..|s| - 1] == inner
  {
  }

  lemma CutAt(m: string, r: string)
    ensures (m + "." + r)[..|m|] == m && (m + "." + r)[|m| + 1..] == r
  {
  }

  lemma RoleMatchPrints(s: string)
    requires MatchRole(s).Some?
    ensures var m := MatchRole(s).value; s == Quoted(RoleKey(m.mspid, m.role)) && Mspid(m.mspid)
  {
    var inner := s[1..|s| - 1];
    var k := AfterLastDot(inner);
    var m := MatchRole(s).value;
    RoleTextExact(inner[k..], m.role);
    Requote(s);
    Rejoin(inner, k);
  }

  lemma Requote(s: string)
    requires |s| >= 2 && s[0] == '\'' && s[|s| - 1] == '\''
    ensures s == Quoted(s[1..|s| - 1])
  {
  }

  lemma Rejoin(inner: string, k: nat)
    requires 0 < k <= |inner| && inner[k - 1] == '.'
    ensures inner == inner[..k - 1] + "." + inner[k..]
  {
  }

  lemma RoleKeyInjective(m: string, r: Role, m': string, r': Role)
    requires RoleKey(m, r) == RoleKey(m', r')
    ensures m == m' && r == r'
  {
    RoleTextExact(RoleText(r), r);
    RoleTextExact(RoleText(r'), r');
    LastDotUnique(m, RoleText(r));
    LastDotUnique(m', RoleText(r'));
    var s := RoleKey(m, r);
    assert s[..|m|] == m && s[|m| + 1..] == RoleText(r);
    assert s[..|m'|] == m' && s[|m'| + 1..] == RoleText(r');
  }

  /** Total size of a list of items, one separator each. */
  ghost function Weight(items: seq<string>): nat {
    if items == [] then 0 else |items[0]| + 1 + Weight(items[1..])
  }

  lemma {:induction false} SplitWeight(s: string, sep: char)
    ensures Weight(Split(s, sep)) == |s| + 1
  {
    if s != "" {
      SplitWeight(s[1..], sep);
      var rest := Split(s[1..], sep);
      if s[0] == sep {
        assert Split(s, sep)[1..] == rest;
      } else {
        assert Split(s, sep)[1..] == rest[1..];
      }
    }
  }

  /** One comma-separated item: a gate, a role, or nothing the patterns know. */
  function ParseItem(item: string): Option<Clause>
    decreases |item| + 1, 0
  {
    match MatchGate(item)
    case Some(m) =>
      SplitWeight(m.body, ',');
      Some(GateClause(m.gate, ParseItems(Split(m.body, ','))))
    case None =>
      match MatchRole(item)
      case Some(m) => Some(RoleClause(m.mspid, m.role))
      case None => None
  }

  /** The items in order, without those that match neither pattern. */
  function ParseItems(items: seq<string>): seq<Clause>
    decreases Weight(items), 1
  {
    if items == [] then []
    else
      var rest := ParseItems(items[1..]);
      match ParseItem(items[0])
      case Some(c) => [c] + rest
      case None => rest
  }

  /** The whole text must be a gate; anything else makes `FromString` throw. */
  function ParsePolicy(s: string): (r: Option<Clause>) {
    if MatchGate(s) == None then None else ParseItem(s)
  }

  lemma GateEnds(item: string)
    requires MatchGate(item).Some?
    ensures |item| > 0 && item[|item| - 1] == ')'
    ensures item[0] == 'A' || item[0] == 'O'
  {
    var m := MatchGate(item).value;
    GatePatternExact(item, m.gate, m.body);
    assert item[0] == GateWord(m.gate)[0];
  }

  lemma RoleEnds(item: string)
    requires MatchRole(item).Some?
    ensures |item| > 0 && item[0] == '\'' && item[|item| - 1] == '\''
  {
  }

  /** Items of either kind start and end in their own way. */
  lemma ItemEnds(s: string)
    requires ParseItem(s).Some?
    ensures s != ""
    ensures var last := s[|s| - 1];
            (last == ')' && (s[0] == 'A' || s[0] == 'O')) || (last == '\'' && s[0] == '\'')
  {
    if MatchGate(s).Some? {
      GateEnds(s);
    } else {
      RoleEnds(s);
    }
  }

  /** An item that is blank, or starts or ends with a blank, matches neither pattern. */
  lemma BlankEndsMatchNothing(item: string)
    requires item == "" || IsSpace(item[0]) || IsSpace(item[|item| - 1])
    ensures ParseItem(item) == None
  {
    if ParseItem(item).Some? {
      ItemEnds(item);
    }
  }

  lemma FirstItem(item: string, rest: seq<string>)
    ensures ParseItems([item] + rest) == AsSeq(ParseItem(item)) + ParseItems(rest)
  {
    assert ([item] + rest)[1..] == rest;
  }

  lemma OnlyItem(item: string)
    ensures ParseItems([item]) == AsSeq(ParseItem(item))
  {
    FirstItem(item, []);
    assert [item] + [] == [item];
  }

  lemma GateItemParses(gate: Gate, body: string)
    requires body != "" && GateBody(body)
    ensures MatchGate(GateItem(gate, body)) == Some(GateMatch(gate, body))
    ensures ParseItem(GateItem(gate, body)) == Some(GateClause(gate, ParseItems(Split(body, ','))))
  {
    GatePatternExact(GateItem(gate, body), gate, body);
  }

  lemma GateItemInjective(gate: Gate, body: string, gate': Gate, body': string)
    requires GateItem(gate, body) == GateItem(gate', body')
    ensures gate == gate' && body == body'
  {
    var s := GateItem(gate, body);
    assert s[0] == GateWord(gate)[0] == GateWord(gate')[0];
    var k := |GateWord(gate)| + 1;
    assert s[k..|s| - 1] == body;
    assert s[k..|s| - 1] == body';
  }

  lemma {:induction false} ParseItemsPrefix(items: seq<string>)
    ensures |ParseItems(items)| <= |items|
    ensures |ParseItems(items)| == |items| ==>
              forall i | 0 <= i < |items| :: ParseItem(items[i]) == Some(ParseItems(items)[i])
  {
    if items != [] {
      ParseItemsPrefix(items[1..]);
      if |ParseItems(items)| == |items| {
        forall i | 0 <= i < |items| ensures ParseItem(items[i]) == Some(ParseItems(items)[i]) {
          if i > 0 { assert items[i] == items[1..][i - 1]; }
        }
      }
    }
  }

  lemma {:induction false} ParseItemsAll(items: seq<string>, cs: seq<Clause>)
    requires |cs| == |items|
    requires forall i | 0 <= i < |items| :: ParseItem(items[i]) == Some(cs[i])
    ensures ParseItems(items) == cs
  {
    if items != [] {
      forall i | 0 <= i < |items[1..]| ensures ParseItem(items[1..][i]) == Some(cs[1..][i]) {
        assert items[1..][i] == items[i + 1];
      }
      ParseItemsAll(items[1..], cs[1..]);
    }
  }

  // ----- Shape of the trees the text layer can produce

  /** Every gate inside has at most one argument. */
  predicate AtMostUnary(c: Clause) {
    match c
    case RoleClause(_, _) => true
    case GateClause(_, subs) => |subs| <= 1 && forall i | 0 <= i < |subs| :: AtMostUnary(subs[i])
  }

  /** Because every comma separates items, a nested gate never has two arguments. */
  lemma {:induction false} CommaFreeIsUnary(item: string)
    requires ',' !in item
    ensures ParseItem(item).Some? ==> AtMostUnary(ParseItem(item).value)
    decreases |item|
  {
    if MatchGate(item).Some? {
      var m := MatchGate(item).value;
      GatePatternExact(item, m.gate, m.body);
      assert forall c | c in m.body :: c in item;
      SplitWhole(m.body, ',');
      CommaFreeIsUnary(m.body);
      OnlyItem(m.body);
    }
  }

  lemma {:induction false} ItemsAreUnary(items: seq<string>)
    requires forall p | p in items :: ',' !in p
    ensures forall i | 0 <= i < |ParseItems(items)| :: AtMostUnary(ParseItems(items)[i])
  {
    if items != [] {
      ItemsAreUnary(items[1..]);
      CommaFreeIsUnary(items[0]);
    }
  }

  /** Nested gates of an accepted policy have at most one argument each. */
  lemma AcceptedShape(s: string)
    requires ParsePolicy(s).Some?
    ensures ParsePolicy(s).value.GateClause?
    ensures forall i | 0 <= i < |ParsePolicy(s).value.subs| :: AtMostUnary(ParsePolicy(s).value.subs[i])
  {
    var m := MatchGate(s).value;
    SplitHasNo(m.body, ',');
    ItemsAreUnary(Split(m.body, ','));
    assert ParseItem(s) == Some(GateClause(m.gate, ParseItems(Split(m.body, ','))));
  }
}
