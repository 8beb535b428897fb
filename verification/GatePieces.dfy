/**
 What the split at every comma makes of a written policy. A piece between two commas is some opening
 gates, at most one role, and some closing parentheses, which need not balance.
 */
module GatePieces {
  import opened Text
  import opened GateSyntax
  import opened GateLayout

  type RoleLayout = l: Layout | l.RoleAt? witness RoleAt("", "", MEMBER, "")

  datatype Open = Open(lead: string, gate: Gate)

  /** `closes` are the blanks after each closing parenthesis. */
  datatype Piece = Piece(opens: seq<Open>, core: Option<RoleLayout>, closes: seq<string>)

  function OpenText(o: Open): string { o.lead + (GateWord(o.gate) + "(") }

  function OpensText(opens: seq<Open>): string {
    if opens == [] then "" else OpenText(opens[0]) + OpensText(opens[1..])
  }

  function ClosesText(closes: seq<string>): string {
    if closes == [] then "" else ClosesText(closes[..|closes| - 1]) + (")" + closes[|closes| - 1])
  }

  function CoreText(core: Option<RoleLayout>): string {
    match core
    case None => ""
    case Some(l) => Print(l)
  }

  function PieceText(p: Piece): string { OpensText(p.opens) + CoreText(p.core) + ClosesText(p.closes) }

  function Texts(ps: seq<Piece>): (r: seq<string>) {
    seq(|ps|, i requires 0 <= i < |ps| => PieceText(ps[i]))
  }

  // ----- The pieces of a layout

  function Opened(ps: seq<Piece>, o: Open): seq<Piece>
    requires ps != []
  {
    [ps[0].(opens := [o] + ps[0].opens)] + ps[1..]
  }

  function Closed(ps: seq<Piece>, trail: string): seq<Piece>
    requires ps != []
  {
    var n := |ps| - 1;
    ps[..n] + [ps[n].(closes := ps[n].closes + [trail])]
  }

  const EMPTY := Piece([], None, [])

  function Pieces(l: Layout): (ps: seq<Piece>)
    ensures ps != []
    decreases l, 1
  {
    match l
    case RoleAt(_, _, _, _) => [Piece([], Some(l), [])]
    case GateAt(lead, gate, args, trail) =>
      Closed(Opened(if args == [] then [EMPTY] else PiecesAll(args), Open(lead, gate)), trail)
  }

  function PiecesAll(ls: seq<Layout>): (ps: seq<Piece>)
    ensures ls != [] ==> ps != []
    decreases ls, 0
  {
    if ls == [] then [] else Pieces(ls[0]) + PiecesAll(ls[1..])
  }

  lemma PiecesOfOne(l: Layout)
    ensures PiecesAll([l]) == Pieces(l)
  {
    assert [l][1..] == [];
  }

  lemma PiecesOfTwo(a: Layout, b: Layout)
    ensures PiecesAll([a, b]) == Pieces(a) + Pieces(b)
  {
    assert [a, b][1..] == [b];
    PiecesOfOne(b);
  }

  lemma WrapOne(p: Piece, o: Open, trail: string)
    ensures Closed(Opened([p], o), trail) == [Piece([o] + p.opens, p.core, p.closes + [trail])]
  {
  }

  lemma WrapTwo(p: Piece, q: Piece, o: Open, trail: string)
    ensures Closed(Opened([p, q], o), trail)
            == [p.(opens := [o] + p.opens), q.(closes := q.closes + [trail])]
  {
  }

  // ----- They are what the split gives

  lemma {:induction false} JoinAppend(a: seq<string>, b: seq<string>)
    requires a != [] && b != []
    ensures Join(a + b, ',') == Join(a, ',') + "," + Join(b, ',')
  {
    if |a| == 1 {
      assert (a + b)[1..] == b;
    } else {
      JoinAppend(a[1..], b);
      assert (a + b)[1..] == a[1..] + b;
    }
  }

  lemma JoinLast(front: seq<string>, item: string, last: string)
    ensures Join(front + [item + last], ',') == Join(front + [item], ',') + last
  {
    if front == [] {
      assert front + [item] == [item] && front + [item + last] == [item + last];
    } else {
      JoinAppend(front, [item + last]);
      JoinAppend(front, [item]);
    }
  }

  lemma TextOpened(p: Piece, o: Open)
    ensures PieceText(p.(opens := [o] + p.opens)) == OpenText(o) + PieceText(p)
  {
    assert ([o] + p.opens)[1..] == p.opens;
  }

  lemma TextClosed(p: Piece, trail: string)
    ensures PieceText(p.(closes := p.closes + [trail])) == PieceText(p) + (")" + trail)
  {
    assert (p.closes + [trail])[..|p.closes|] == p.closes;
  }

  lemma JoinOpened(ps: seq<Piece>, o: Open)
    requires ps != []
    ensures Join(Texts(Opened(ps, o)), ',') == OpenText(o) + Join(Texts(ps), ',')
  {
    var begun := ps[0].(opens := [o] + ps[0].opens);
    TextOpened(ps[0], o);
    TextsAppend([begun], ps[1..]);
    TextsAppend([ps[0]], ps[1..]);
    assert [ps[0]] + ps[1..] == ps;
    assert Texts([begun]) == [PieceText(begun)] && Texts([ps[0]]) == [PieceText(ps[0])];
    JoinFirst(OpenText(o), PieceText(ps[0]), Texts(ps[1..]), ',');
  }

  lemma JoinClosed(ps: seq<Piece>, trail: string)
    requires ps != []
    ensures Join(Texts(Closed(ps, trail)), ',') == Join(Texts(ps), ',') + (")" + trail)
  {
    var n := |ps| - 1;
    var closed := ps[n].(closes := ps[n].closes + [trail]);
    TextClosed(ps[n], trail);
    TextsAppend(ps[..n], [closed]);
    TextsAppend(ps[..n], [ps[n]]);
    assert ps[..n] + [ps[n]] == ps;
    assert Texts([closed]) == [PieceText(closed)] && Texts([ps[n]]) == [PieceText(ps[n])];
    JoinLast(Texts(ps[..n]), PieceText(ps[n]), ")" + trail);
  }

  lemma {:induction false} JoinPieces(l: Layout)
    ensures Join(Texts(Pieces(l)), ',') == Print(l)
    decreases l, 1
  {
    match l
    case RoleAt(_, _, _, _) =>
      assert PieceText(Piece([], Some(l), [])) == Print(l);
      assert Texts(Pieces(l)) == [Print(l)];
    case GateAt(lead, gate, args, trail) =>
      var ps := if args == [] then [EMPTY] else PiecesAll(args);
      assert Join(Texts(ps), ',') == Join(Prints(args), ',') by {
        if args == [] {
          assert Texts(ps) == [""];
        } else {
          JoinPiecesAll(args);
        }
      }
      JoinGate(l, ps);
  }

  lemma JoinGate(l: Layout, ps: seq<Piece>)
    requires l.GateAt? && ps != [] && Join(Texts(ps), ',') == Join(Prints(l.args), ',')
    ensures Join(Texts(Closed(Opened(ps, Open(l.lead, l.gate)), l.trail)), ',') == Print(l)
  {
    var open, body := Open(l.lead, l.gate), Join(Prints(l.args), ',');
    JoinOpened(ps, open);
    JoinClosed(Opened(ps, open), l.trail);
    Regroup(l.lead, GateWord(l.gate), body, l.trail);
  }

  lemma Regroup(lead: string, word: string, body: string, trail: string)
    ensures (lead + (word + "(")) + body + (")" + trail) == lead + (word + "(" + body + ")") + trail
  {
  }

  lemma {:induction false} JoinPiecesAll(ls: seq<Layout>)
    requires ls != []
    ensures Join(Texts(PiecesAll(ls)), ',') == Join(Prints(ls), ',')
    decreases ls, 0
  {
    JoinPieces(ls[0]);
    var rest := ls[1..];
    if rest == [] {
      assert PiecesAll(rest) == [] && Prints(rest) == [];
      assert PiecesAll(ls) == Pieces(ls[0]) && Prints(ls) == [Print(ls[0])];
    } else {
      JoinPiecesAll(rest);
      JoinBoth(Pieces(ls[0]), PiecesAll(rest), Prints(ls));
    }
  }

  lemma JoinBoth(first: seq<Piece>, rest: seq<Piece>, prints: seq<string>)
    requires first != [] && rest != [] && |prints| > 1
    requires Join(Texts(first), ',') == prints[0] && Join(Texts(rest), ',') == Join(prints[1..], ',')
    ensures Join(Texts(first + rest), ',') == Join(prints, ',')
  {
    TextsAppend(first, rest);
    JoinAppend(Texts(first), Texts(rest));
  }

  lemma TextsAppend(a: seq<Piece>, b: seq<Piece>)
    ensures Texts(a + b) == Texts(a) + Texts(b)
  {
  }

  // ----- Legal pieces

  predicate PieceOk(p: Piece) {
    && (forall i | 0 <= i < |p.opens| :: AllSpace(p.opens[i].lead))
    && (forall i | 0 <= i < |p.closes| :: AllSpace(p.closes[i]))
    && (p.core.Some? ==> WellFormed(p.core.value) && Chain(p.core.value))
  }

  predicate PiecesOk(ps: seq<Piece>) { forall i | 0 <= i < |ps| :: PieceOk(ps[i]) }

  lemma {:induction false} LegalPieces(l: Layout)
    requires WellFormed(l) && NoDashes(l)
    ensures PiecesOk(Pieces(l))
    decreases l, 1
  {
    if l.GateAt? {
      LegalPiecesAll(l.args);
      LegalWrap(if l.args == [] then [EMPTY] else PiecesAll(l.args), Open(l.lead, l.gate), l.trail);
    }
  }

  lemma LegalWrap(ps: seq<Piece>, o: Open, trail: string)
    requires ps != [] && PiecesOk(ps) && AllSpace(o.lead) && AllSpace(trail)
    ensures PiecesOk(Closed(Opened(ps, o), trail))
  {
    var begun := Opened(ps, o);
    forall i | 0 <= i < |begun| ensures PieceOk(begun[i]) {
      assert PieceOk(ps[i]);
    }
    var n := |begun| - 1;
    assert PieceOk(begun[n]);
    assert PieceOk(begun[n].(closes := begun[n].closes + [trail]));
  }

  lemma {:induction false} LegalPiecesAll(ls: seq<Layout>)
    requires forall i | 0 <= i < |ls| :: WellFormed(ls[i]) && NoDashes(ls[i])
    ensures PiecesOk(PiecesAll(ls))
    decreases ls, 0
  {
    if ls != [] {
      LegalPieces(ls[0]);
      LegalPiecesAll(ls[1..]);
    }
  }

  /** A text that neither holds a comma nor leaves the characters of a gate's body. */
  predicate Clean(s: string) { ',' !in s && GateBody(s) }

  lemma {:induction false} CleanOpens(opens: seq<Open>)
    requires forall i | 0 <= i < |opens| :: AllSpace(opens[i].lead)
    ensures Clean(OpensText(opens))
    ensures opens != [] ==> OpensText(opens) != "" && OpensText(opens)[|OpensText(opens)| - 1] == '('
    ensures opens != [] ==> OpensText(opens)[0] == 'A' || OpensText(opens)[0] == 'O' || IsSpace(OpensText(opens)[0])
  {
    if opens != [] {
      CleanOpens(opens[1..]);
      var lead, word := opens[0].lead, GateWord(opens[0].gate) + "(";
      assert Clean(word) && Clean(lead);
      assert lead != "" ==> lead[0] in lead;
    }
  }

  lemma {:induction false} CleanCloses(closes: seq<string>)
    requires forall i | 0 <= i < |closes| :: AllSpace(closes[i])
    ensures Clean(ClosesText(closes))
    ensures closes != [] ==> ClosesText(closes) != "" && ClosesText(closes)[0] == ')'
    ensures closes != [] ==> var c := ClosesText(closes)[|ClosesText(closes)| - 1]; c == ')' || IsSpace(c)
  {
    if closes != [] {
      CleanCloses(closes[..|closes| - 1]);
      var trail := closes[|closes| - 1];
      assert Clean(")") && Clean(trail);
      assert trail != "" ==> trail[|trail| - 1] in trail;
    }
  }

  lemma CleanCore(l: RoleLayout)
    requires WellFormed(l) && Chain(l)
    ensures Clean(Print(l)) && Print(l) != ""
    ensures Print(l)[0] == '\'' || IsSpace(Print(l)[0])
    ensures var c := Print(l)[|Print(l)| - 1]; c == '\'' || IsSpace(c)
  {
    ChainReading(l);
    var item := Quoted(RoleKey(l.mspid, l.role));
    assert item[0] == '\'' && item[|item| - 1] == '\'';
    assert l.lead != "" ==> l.lead[0] in l.lead;
    assert l.trail != "" ==> l.trail[|l.trail| - 1] in l.trail;
  }

  lemma CleanPiece(p: Piece)
    requires PieceOk(p)
    ensures Clean(PieceText(p))
    ensures PieceText(p) == "" <==> p == EMPTY
  {
    CleanOpens(p.opens);
    CleanCloses(p.closes);
    if p.core.Some? { CleanCore(p.core.value); }
  }

  // ----- How a piece is read

  /**
   Gates and parentheses are peeled off pairwise from the outside, as long as no blank stands around
   them. What does not balance then is dropped, and leaves the gate around it empty.
   */
  function ReadPiece(p: Piece): Option<Clause>
    decreases |p.opens|
  {
    if p.opens == [] && p.closes == [] then
      if p.core.Some? then Reading(p.core.value) else None
    else if p.opens == [] || p.closes == [] || p.opens[0].lead != "" || p.closes[|p.closes| - 1] != "" then None
    else
      var inner := Inner(p);
      if inner == EMPTY then None
      else Some(GateClause(p.opens[0].gate, AsSeq(ReadPiece(inner))))
  }

  function Inner(p: Piece): Piece
    requires p.opens != [] && p.closes != []
  {
    p.(opens := p.opens[1..], closes := p.closes[..|p.closes| - 1])
  }

  function ReadPieces(ps: seq<Piece>): seq<Clause> {
    if ps == [] then []
    else AsSeq(ReadPiece(ps[0])) + ReadPieces(ps[1..])
  }

  lemma OnlyOpens(p: Piece)
    requires PieceOk(p) && p.opens != [] && p.closes == []
    ensures ParseItem(PieceText(p)) == None
  {
    CleanOpens(p.opens);
    if p.core.Some? { CleanCore(p.core.value); }
    var s, a, c := PieceText(p), OpensText(p.opens), CoreText(p.core);
    assert s == a + c && s[0] == a[0] && s[|s| - 1] == if c == "" then a[|a| - 1] else c[|c| - 1];
    if ParseItem(s).Some? { ItemEnds(s); }
  }

  lemma OnlyCloses(p: Piece)
    requires PieceOk(p) && p.opens == [] && p.closes != []
    ensures ParseItem(PieceText(p)) == None
  {
    CleanCloses(p.closes);
    if p.core.Some? { CleanCore(p.core.value); }
    var s, c, z := PieceText(p), CoreText(p.core), ClosesText(p.closes);
    assert s == c + z && s[|s| - 1] == z[|z| - 1] && s[0] == if c == "" then z[0] else c[0];
    if ParseItem(s).Some? { ItemEnds(s); }
  }

  lemma PeelText(p: Piece)
    requires p.opens != [] && p.closes != []
    ensures PieceText(p)
            == p.opens[0].lead + GateItem(p.opens[0].gate, PieceText(Inner(p))) + p.closes[|p.closes| - 1]
  {
    var o, t := p.opens[0], p.closes[|p.closes| - 1];
    var a, c, z := OpensText(p.opens[1..]), CoreText(p.core), ClosesText(p.closes[..|p.closes| - 1]);
    Regroup(o.lead, GateWord(o.gate), a + c + z, t);
    PeelStrings(OpenText(o), a, c, z, ")" + t);
  }

  lemma PeelStrings(open: string, a: string, c: string, z: string, close: string)
    ensures (open + a) + c + (z + close) == open + (a + c + z) + close
  {
    assert (open + a) + c == open + (a + c);
    assert open + (a + c) + (z + close) == open + ((a + c) + z) + close;
  }

  /** A gate around a text without commas; nothing at all does not make a gate. */
  lemma GateAround(gate: Gate, body: string)
    requires Clean(body)
    ensures ParseItem(GateItem(gate, body))
            == if body == "" then None else Some(GateClause(gate, AsSeq(ParseItem(body))))
  {
    if body == "" {
      EmptyGateText(gate);
    } else {
      var items := Split(body, ',');
      SplitWhole(body, ',');
      OnlyItem(body);
      GateItemParses(gate, body);
    }
  }

  lemma EmptyGateText(gate: Gate)
    ensures ParseItem(GateItem(gate, "")) == None
  {
    var s := GateItem(gate, "");
    assert s[0] == GateWord(gate)[0];
    if MatchGate(s).Some? {
      var m := MatchGate(s).value;
      GatePatternExact(s, m.gate, m.body);
      GateItemInjective(gate, "", m.gate, m.body);
    }
  }

  lemma PeeledItem(lead: string, gate: Gate, body: string, trail: string)
    requires AllSpace(lead) && AllSpace(trail) && Clean(body)
    ensures ParseItem(lead + GateItem(gate, body) + trail)
            == if lead != "" || trail != "" || body == "" then None
               else Some(GateClause(gate, AsSeq(ParseItem(body))))
  {
    PaddedItem(lead, GateItem(gate, body), trail);
    GateAround(gate, body);
  }

  lemma {:induction false} PieceReading(p: Piece)
    requires PieceOk(p)
    ensures ParseItem(PieceText(p)) == ReadPiece(p)
    decreases |p.opens|
  {
    if p.opens == [] && p.closes == [] {
      BarePiece(p);
    } else if p.closes == [] {
      OnlyOpens(p);
    } else if p.opens == [] {
      OnlyCloses(p);
    } else {
      PieceReading(Inner(p));
      PeeledReading(p);
    }
  }

  lemma BarePiece(p: Piece)
    requires PieceOk(p) && p.opens == [] && p.closes == []
    ensures ParseItem(PieceText(p)) == ReadPiece(p)
  {
    assert PieceText(p) == CoreText(p.core);
    if p.core.Some? {
      ChainReading(p.core.value);
    } else {
      BlankEndsMatchNothing("");
    }
  }

  lemma PeeledReading(p: Piece)
    requires PieceOk(p) && p.opens != [] && p.closes != []
    requires ParseItem(PieceText(Inner(p))) == ReadPiece(Inner(p))
    ensures ParseItem(PieceText(p)) == ReadPiece(p)
  {
    var o, t, inner := p.opens[0], p.closes[|p.closes| - 1], Inner(p);
    PeelText(p);
    CleanPiece(inner);
    PeeledItem(o.lead, o.gate, PieceText(inner), t);
    PeeledPiece(p);
  }

  lemma PeeledPiece(p: Piece)
    requires p.opens != [] && p.closes != []
    ensures ReadPiece(p)
            == if p.opens[0].lead != "" || p.closes[|p.closes| - 1] != "" || Inner(p) == EMPTY then None
               else Some(GateClause(p.opens[0].gate, AsSeq(ReadPiece(Inner(p)))))
  {
  }

  lemma {:induction false} PiecesReading(ps: seq<Piece>)
    requires PiecesOk(ps)
    ensures ParseItems(Texts(ps)) == ReadPieces(ps)
  {
    if ps != [] {
      PieceReading(ps[0]);
      PiecesReading(ps[1..]);
      TextsAppend([ps[0]], ps[1..]);
      assert [ps[0]] + ps[1..] == ps && Texts([ps[0]]) == [PieceText(ps[0])];
      FirstItem(PieceText(ps[0]), Texts(ps[1..]));
    }
  }

  /** The clause the text layer understands, told from the written policy alone. */
  function AsRead(l: Layout): Clause
    requires l.GateAt?
  {
    GateClause(l.gate, ReadPieces(PiecesAll(l.args)))
  }

  /**
   How every accepted policy is read, with any nesting, any number of arguments and blanks anywhere:
   piece by piece, each peeled from the outside.
   */
  lemma WrittenReading(l: Layout)
    requires l.GateAt? && WellFormed(l) && Bare(l) && l.args != [] && NoDashes(l)
    ensures ParsePolicy(Print(l)) == Some(AsRead(l))
  {
    var ps := PiecesAll(l.args);
    LegalPiecesAll(l.args);
    forall i | 0 <= i < |ps| ensures ',' !in Texts(ps)[i] {
      CleanPiece(ps[i]);
    }
    JoinPiecesAll(l.args);
    SplitJoin(Texts(ps), ',');
    PiecesReading(ps);
    BodiesExactly(l.args);
    BareGate(l);
    GateItemParses(l.gate, Join(Prints(l.args), ','));
  }

  lemma {:induction false} PieceIsUnary(p: Piece)
    ensures ReadPiece(p).Some? ==> AtMostUnary(ReadPiece(p).value)
    decreases |p.opens|
  {
    if p.opens != [] && p.closes != [] {
      PieceIsUnary(Inner(p));
    }
  }

  lemma {:induction false} PiecesAreUnary(ps: seq<Piece>)
    ensures forall i | 0 <= i < |ReadPieces(ps)| :: AtMostUnary(ReadPieces(ps)[i])
  {
    if ps != [] {
      PieceIsUnary(ps[0]);
      PiecesAreUnary(ps[1..]);
    }
  }

  // ----- Nested gates of several roles

  lemma {:induction false} DropLast(ps: seq<Piece>, last: Piece)
    requires ReadPiece(last) == None
    ensures ReadPieces(ps + [last]) == ReadPieces(ps)
  {
    if ps == [] {
      assert [] + [last] == [last] + [];
      ReadFirst(last, []);
    } else {
      var p, rest := ps[0], ps[1..];
      DropLast(rest, last);
      ReadFirst(p, rest + [last]);
      assert ps + [last] == [p] + (rest + [last]);
    }
  }

  lemma ReadFirst(p: Piece, rest: seq<Piece>)
    ensures ReadPieces([p] + rest) == AsSeq(ReadPiece(p)) + ReadPieces(rest)
  {
    assert ([p] + rest)[1..] == rest;
  }

  lemma {:induction false} RolePieces(args: seq<Layout>)
    requires forall i | 0 <= i < |args| :: args[i].RoleAt? && Bare(args[i])
    ensures |PiecesAll(args)| == |args|
    ensures forall i | 0 <= i < |args| :: PiecesAll(args)[i] == Piece([], Some(args[i]), [])
    ensures ReadPieces(PiecesAll(args)) == Trees(args)
  {
    if args != [] {
      RolePieces(args[1..]);
      assert forall i | 1 <= i < |args| :: args[i] == args[1..][i - 1];
      ReadFirst(Piece([], Some(args[0]), []), PiecesAll(args[1..]));
    }
  }

  /**
   A nested gate of two or more plain roles is cut at its commas: its first and last role do not balance
   and are lost, the ones between are read as arguments of the OUTER gate. So
   `OR(AND('A.member','B.member','C.member'))` is read as `OR('B.member')`.
   */
  lemma NestedGateIsCutUp(outer: Gate, inner: Gate, args: seq<Layout>)
    requires |args| >= 2
    requires forall i | 0 <= i < |args| :: args[i].RoleAt? && WellFormed(args[i]) && PlainArgument(args[i])
    ensures ParsePolicy(Print(GateAt("", outer, [GateAt("", inner, args, "")], "")))
            == Some(GateClause(outer, Trees(args[1..|args| - 1])))
  {
    var nested := GateAt("", inner, args, "");
    var l := GateAt("", outer, [nested], "");
    WrittenReading(l);
    PiecesOfOne(nested);
    RolePieces(args);
    CutPieces(inner, args, PiecesAll(args));
  }

  lemma CutPieces(inner: Gate, args: seq<Layout>, ps: seq<Piece>)
    requires |args| >= 2 && |ps| == |args|
    requires forall i | 0 <= i < |args| :: args[i].RoleAt? && Bare(args[i])
    requires forall i | 0 <= i < |args| :: ps[i] == Piece([], Some(args[i]), [])
    ensures ReadPieces(Closed(Opened(ps, Open("", inner)), "")) == Trees(args[1..|args| - 1])
  {
    var n := |args| - 1;
    var first, last := Piece([Open("", inner)], Some(args[0]), []), Piece([], Some(args[n]), [""]);
    var middle := args[1..n];
    RolePieces(middle);
    assert forall i | 0 <= i < |middle| :: middle[i] == args[i + 1];
    assert ps[1..n] == PiecesAll(middle);
    CutShape(ps, Open("", inner), first, last);
    Unbalanced(first, PiecesAll(middle), last);
  }

  lemma CutShape(ps: seq<Piece>, o: Open, first: Piece, last: Piece)
    requires |ps| >= 2 && ps[0].opens == [] && ps[|ps| - 1].closes == []
    requires first == ps[0].(opens := [o]) && last == ps[|ps| - 1].(closes := [""])
    ensures Closed(Opened(ps, o), "") == [first] + (ps[1..|ps| - 1] + [last])
  {
    var n := |ps| - 1;
    var begun := Opened(ps, o);
    assert [o] + [] == [o] && [] + [""] == [""];
    assert begun == [first] + ps[1..];
    assert begun[..n] == [first] + ps[1..n] && begun[n] == ps[n];
  }

  lemma Unbalanced(first: Piece, middle: seq<Piece>, last: Piece)
    requires ReadPiece(first) == None && ReadPiece(last) == None
    ensures ReadPieces([first] + (middle + [last])) == ReadPieces(middle)
  {
    ReadFirst(first, middle + [last]);
    DropLast(middle, last);
  }
}
