/** The PEM text normalisation `normalizeX509`: its pattern match, its output, and when it is stable. */
module X509Text {
  import opened Text

  const DASHES := "-----"
  const BEGIN := "BEGIN"
  const END := "END"

  predicate NoDash(s: string) { '-' !in s }

  // ----- The pattern

  /** A delimiter line: dashes, blanks, the keyword, a label without dashes, dashes. */
  ghost predicate IsDelimiter(t: string, word: string) {
    exists blanks, title ::
      AllSpace(blanks) && title != "" && NoDash(title) && t == DASHES + blanks + word + title + DASHES
  }

  predicate StartsAt(s: string, i: nat, w: string) { i + |w| <= |s| && s[i..i + |w|] == w }

  /** The first position from `i` on that holds no blank. */
  function SkipBlanks(s: string, i: nat): (k: nat)
    requires i <= |s|
    ensures i <= k <= |s|
    decreases |s| - i
  {
    if i < |s| && IsSpace(s[i]) then SkipBlanks(s, i + 1) else i
  }

  /** The first position from `i` on that holds a dash. */
  function SkipLabel(s: string, i: nat): (k: nat)
    requires i <= |s|
    ensures i <= k <= |s|
    decreases |s| - i
  {
    if i < |s| && s[i] != '-' then SkipLabel(s, i + 1) else i
  }

  lemma {:induction false} SkipBlanksStops(s: string, i: nat)
    requires i <= |s|
    ensures var k := SkipBlanks(s, i); AllSpace(s[i..k]) && (k < |s| ==> !IsSpace(s[k]))
    decreases |s| - i
  {
    if i < |s| && IsSpace(s[i]) {
      SkipBlanksStops(s, i + 1);
      assert s[i..SkipBlanks(s, i)] == [s[i]] + s[i + 1..SkipBlanks(s, i)];
    }
  }

  lemma {:induction false} SkipLabelStops(s: string, i: nat)
    requires i <= |s|
    ensures var k := SkipLabel(s, i); NoDash(s[i..k]) && (k < |s| ==> s[k] == '-')
    decreases |s| - i
  {
    if i < |s| && s[i] != '-' {
      SkipLabelStops(s, i + 1);
      assert s[i..SkipLabel(s, i)] == [s[i]] + s[i + 1..SkipLabel(s, i)];
    }
  }

  /** The end of the delimiter that starts at `i`, if one does. */
  function DelimiterEnd(s: string, i: nat, word: string): (e: Option<nat>)
    requires i <= |s|
    ensures e.Some? ==> i < e.value <= |s|
  {
    if !StartsAt(s, i, DASHES) then None
    else
      var k := SkipBlanks(s, i + |DASHES|);
      if !StartsAt(s, k, word) then None
      else
        var l := SkipLabel(s, k + |word|);
        if l == k + |word| || !StartsAt(s, l, DASHES) then None
        else Some(l + |DASHES|)
  }

  lemma SkipBlanksIs(s: string, i: nat, k: nat)
    requires i <= k < |s| && AllSpace(s[i..k]) && !IsSpace(s[k])
    ensures SkipBlanks(s, i) == k
  {
    var m := SkipBlanks(s, i);
    SkipBlanksStops(s, i);
    assert forall x | i <= x < k :: s[x] == s[i..k][x - i];
    assert forall x | i <= x < m :: s[x] == s[i..m][x - i];
  }

  lemma SkipLabelIs(s: string, i: nat, k: nat)
    requires i <= k < |s| && NoDash(s[i..k]) && s[k] == '-'
    ensures SkipLabel(s, i) == k
  {
    var m := SkipLabel(s, i);
    SkipLabelStops(s, i);
    assert forall x | i <= x < k :: s[x] == s[i..k][x - i];
    assert forall x | i <= x < m :: s[x] == s[i..m][x - i];
  }

  /** The end of a delimiter is determined by its start: greedy and lazy parts have no choice. */
  lemma DelimiterEndExact(s: string, i: nat, word: string, e: nat)
    requires i <= e <= |s| && word != "" && !IsSpace(word[0])
    ensures DelimiterEnd(s, i, word) == Some(e) <==> IsDelimiter(s[i..e], word)
  {
    if DelimiterEnd(s, i, word) == Some(e) {
      DelimiterRead(s, i, word);
    }
    if IsDelimiter(s[i..e], word) {
      var blanks, title :|
        AllSpace(blanks) && title != "" && NoDash(title) && s[i..e] == DASHES + blanks + word + title + DASHES;
      DelimiterFound(s, i, word, e, blanks, title);
    }
  }

  lemma DelimiterRead(s: string, i: nat, word: string)
    requires i <= |s| && DelimiterEnd(s, i, word).Some?
    ensures IsDelimiter(s[i..DelimiterEnd(s, i, word).value], word)
  {
    var b := i + |DASHES|;
    var k := SkipBlanks(s, b);
    var w := k + |word|;
    var l := SkipLabel(s, w);
    SkipBlanksStops(s, b);
    SkipLabelStops(s, w);
    GlueFive(s, i, b, k, w, l, l + |DASHES|);
    DelimiterIs(s[i..l + |DASHES|], s[b..k], word, s[w..l]);
  }

  lemma DelimiterIs(t: string, blanks: string, word: string, title: string)
    requires AllSpace(blanks) && title != "" && NoDash(title) && t == DASHES + blanks + word + title + DASHES
    ensures IsDelimiter(t, word)
  {
  }

  lemma GlueFive(s: string, i: nat, b: nat, k: nat, w: nat, l: nat, e: nat)
    requires i <= b <= k <= w <= l <= e <= |s|
    ensures s[i..e] == s[i..b] + s[b..k] + s[k..w] + s[w..l] + s[l..e]
  {
    Glue(s, i, b, k);
    Glue(s, i, k, w);
    Glue(s, i, w, l);
    Glue(s, i, l, e);
  }

  lemma Glue(s: string, i: nat, j: nat, k: nat)
    requires i <= j <= k <= |s|
    ensures s[i..j] + s[j..k] == s[i..k]
  {
  }

  lemma DelimiterFound(s: string, i: nat, word: string, e: nat, blanks: string, title: string)
    requires i <= e <= |s| && word != "" && !IsSpace(word[0])
    requires AllSpace(blanks) && title != "" && NoDash(title)
    requires s[i..e] == DASHES + blanks + word + title + DASHES
    ensures DelimiterEnd(s, i, word) == Some(e)
  {
    CutFive(s, i, e, blanks, word, title);
    var k := i + |DASHES| + |blanks|;
    var l := k + |word| + |title|;
    SkipsAre(s, i + |DASHES|, k, word, l);
    DelimiterEndIs(s, i, word, k, l);
  }

  lemma DelimiterEndIs(s: string, i: nat, word: string, k: nat, l: nat)
    requires i + |DASHES| <= k <= |s| && StartsAt(s, i, DASHES) && SkipBlanks(s, i + |DASHES|) == k
    requires StartsAt(s, k, word) && k + |word| < l && SkipLabel(s, k + |word|) == l && StartsAt(s, l, DASHES)
    ensures DelimiterEnd(s, i, word) == Some(l + |DASHES|)
  {
  }

  lemma SkipsAre(s: string, b: nat, k: nat, word: string, l: nat)
    requires b <= k && k + |word| <= l && StartsAt(s, k, word) && StartsAt(s, l, DASHES)
    requires word != "" && !IsSpace(word[0]) && AllSpace(s[b..k]) && NoDash(s[k + |word|..l])
    ensures SkipBlanks(s, b) == k && SkipLabel(s, k + |word|) == l
  {
    FirstOfSlice(s, k, word);
    FirstOfSlice(s, l, DASHES);
    SkipBlanksIs(s, b, k);
    SkipLabelIs(s, k + |word|, l);
  }

  lemma FirstOfSlice(s: string, i: nat, w: string)
    requires StartsAt(s, i, w) && w != ""
    ensures s[i] == w[0]
  {
    assert s[i] == s[i..i + |w|][0];
  }

  lemma CutFive(s: string, i: nat, e: nat, blanks: string, word: string, title: string)
    requires i <= e <= |s| && s[i..e] == DASHES + blanks + word + title + DASHES
    ensures var b := i + |DASHES|; var k := b + |blanks|; var w := k + |word|; var l := w + |title|;
            && e == l + |DASHES|
            && StartsAt(s, i, DASHES) && s[b..k] == blanks && StartsAt(s, k, word)
            && s[w..l] == title && StartsAt(s, l, DASHES)
  {
    var b := i + |DASHES|;
    var k := b + |blanks|;
    var w := k + |word|;
    GroupFive(DASHES, blanks, word, title, DASHES);
    Cut(s, i, e, DASHES, blanks + (word + (title + DASHES)));
    Cut(s, b, e, blanks, word + (title + DASHES));
    Cut(s, k, e, word, title + DASHES);
    Cut(s, w, e, title, DASHES);
  }

  lemma GroupFive(a: string, b: string, c: string, d: string, e: string)
    ensures a + b + c + d + e == a + (b + (c + (d + e)))
  {
  }

  lemma Cut(s: string, i: nat, e: nat, first: string, rest: string)
    requires i <= e <= |s| && s[i..e] == first + rest
    ensures i + |first| <= e && s[i..i + |first|] == first && s[i + |first|..e] == rest
  {
    assert s[i..i + |first|] == s[i..e][..|first|];
    assert s[i + |first|..e] == s[i..e][|first|..];
  }

  /** Positions of a match: header [head, body), body [body, foot), footer [foot, end). */
  datatype Match = Match(head: nat, body: nat, foot: nat, end: nat)

  ghost predicate IsMatch(s: string, m: Match) {
    && m.head <= m.body <= m.foot <= m.end <= |s|
    && IsDelimiter(s[m.head..m.body], BEGIN)
    && IsDelimiter(s[m.foot..m.end], END)
  }

  /** The last position from `lo` to `hi` with a property. */
  function LastPosition(p: nat -> bool, lo: nat, hi: nat): (k: Option<nat>)
    requires lo <= hi
    ensures k.Some? ==> lo <= k.value <= hi && p(k.value)
    decreases hi - lo
  {
    if p(hi) then Some(hi) else if lo < hi then LastPosition(p, lo, hi - 1) else None
  }

  lemma {:induction false} LastPositionIsLast(p: nat -> bool, lo: nat, hi: nat, k: nat)
    requires lo <= k <= hi && p(k)
    ensures LastPosition(p, lo, hi).Some? && k <= LastPosition(p, lo, hi).value
    decreases hi - lo
  {
    if !p(hi) {
      LastPositionIsLast(p, lo, hi - 1, k);
    }
  }

  function StartsFooter(s: string): nat -> bool {
    (k: nat) => k <= |s| && DelimiterEnd(s, k, END).Some?
  }

  /** The last position in [lo, hi] where a footer starts. */
  function LastFooter(s: string, lo: nat, hi: nat): (j: Option<nat>)
    requires lo <= hi <= |s|
    ensures j.Some? ==> lo <= j.value <= hi && DelimiterEnd(s, j.value, END).Some?
  {
    LastPosition(StartsFooter(s), lo, hi)
  }

  lemma LastFooterIsLast(s: string, lo: nat, hi: nat, k: nat)
    requires lo <= k <= hi <= |s| && DelimiterEnd(s, k, END).Some?
    ensures LastFooter(s, lo, hi).Some? && k <= LastFooter(s, lo, hi).value
  {
    LastPositionIsLast(StartsFooter(s), lo, hi, k);
  }

  /** The match that starts at `i`: the body runs up to the last footer. */
  function MatchAt(s: string, i: nat): (m: Option<Match>)
    requires i <= |s|
    ensures m.Some? ==> m.value.head == i < m.value.body <= m.value.foot < m.value.end <= |s|
  {
    match DelimiterEnd(s, i, BEGIN)
    case None => None
    case Some(h) =>
      match LastFooter(s, h, |s|)
      case None => None
      case Some(j) => Some(Match(i, h, j, DelimiterEnd(s, j, END).value))
  }

  /** The first position from `i` to `n` with a property. */
  function FirstPosition(p: nat -> bool, i: nat, n: nat): (k: Option<nat>)
    requires i <= n
    ensures k.Some? ==> i <= k.value <= n && p(k.value)
    decreases n - i
  {
    if p(i) then Some(i) else if i < n then FirstPosition(p, i + 1, n) else None
  }

  lemma {:induction false} FirstPositionIsFirst(p: nat -> bool, i: nat, n: nat, k: nat)
    requires i <= k <= n && p(k)
    ensures FirstPosition(p, i, n).Some? && FirstPosition(p, i, n).value <= k
    decreases n - i
  {
    if !p(i) {
      FirstPositionIsFirst(p, i + 1, n, k);
    }
  }

  function StartsMatch(s: string): nat -> bool {
    (k: nat) => k <= |s| && MatchAt(s, k).Some?
  }

  /** `raw.match(regex)`: the match at the first position that has one. */
  function FirstMatch(s: string): (m: Option<Match>)
    ensures m.Some? ==> m.value.head < m.value.body <= m.value.foot < m.value.end <= |s|
    ensures m.Some? ==> MatchAt(s, m.value.head) == m
  {
    match FirstPosition(StartsMatch(s), 0, |s|)
    case None => None
    case Some(k) => MatchAt(s, k)
  }

  lemma FirstMatchIsFirst(s: string, k: nat)
    requires k <= |s| && MatchAt(s, k).Some?
    ensures FirstMatch(s).Some? && FirstMatch(s).value.head <= k
  {
    FirstPositionIsFirst(StartsMatch(s), 0, |s|, k);
  }

  /** Any match at a position shows there, with the same header and no later footer. */
  lemma MatchAtExact(s: string, m: Match)
    requires IsMatch(s, m)
    ensures MatchAt(s, m.head).Some?
    ensures var found := MatchAt(s, m.head).value;
            found.body == m.body && m.foot <= found.foot && (found.foot == m.foot ==> found.end == m.end)
  {
    DelimiterEndExact(s, m.head, BEGIN, m.body);
    DelimiterEndExact(s, m.foot, END, m.end);
    LastFooterIsLast(s, m.body, |s|, m.foot);
  }

  /**
   The pattern match is what the engine's rules prescribe: a match if there is one, the leftmost,
   with the only possible header and footer and, among its footers, the last.
   */
  lemma PatternExact(s: string, m: Match)
    ensures FirstMatch(s) == Some(m) ==> IsMatch(s, m)
    ensures IsMatch(s, m) ==>
              FirstMatch(s).Some?
              && var found := FirstMatch(s).value;
                 && found.head <= m.head
                 && (found.head == m.head ==> found.body == m.body && m.foot <= found.foot)
                 && (found.head == m.head && found.foot == m.foot ==> found.end == m.end)
  {
    if FirstMatch(s) == Some(m) {
      DelimiterEndExact(s, m.head, BEGIN, m.body);
      DelimiterEndExact(s, m.foot, END, m.end);
    }
    if IsMatch(s, m) {
      MatchAtExact(s, m);
      FirstMatchIsFirst(s, m.head);
    }
  }

  // ----- Breaking runs of ten dashes

  function LeadRun(s: string): (k: nat)
    ensures k <= |s|
  {
    if s != "" && s[0] == '-' then 1 + LeadRun(s[1..]) else 0
  }

  /** `result.replace(/----------/g, '-----\n-----')` */
  function Break(s: string): string {
    if s == "" then ""
    else if LeadRun(s) >= 10 then "-----\n-----" + Break(s[10..])
    else [s[0]] + Break(s[1..])
  }

  /** Looks for `n` dashes in a row. */
  predicate HasRun(s: string, n: nat) { s != "" && (LeadRun(s) >= n || HasRun(s[1..], n)) }

  predicate DashesAt(s: string, i: nat, n: nat) {
    i + n <= |s| && forall j | i <= j < i + n :: s[j] == '-'
  }

  lemma {:induction false} LeadExact(s: string, n: nat)
    ensures LeadRun(s) >= n <==> DashesAt(s, 0, n)
  {
    if s != "" && n > 0 {
      LeadExact(s[1..], n - 1);
      assert forall j | 1 <= j < |s| :: s[j] == s[1..][j - 1];
    }
  }

  lemma DashesBehind(s: string, i: nat, n: nat)
    requires s != ""
    ensures DashesAt(s[1..], i, n) <==> DashesAt(s, i + 1, n)
  {
    assert forall j | 1 <= j < |s| :: s[j] == s[1..][j - 1];
    assert forall j | 0 <= j < |s| - 1 :: s[1..][j] == s[j + 1];
  }

  /** What `HasRun` finds: somewhere `n` characters in a row are dashes. */
  lemma {:induction false} RunExact(s: string, n: nat)
    requires n > 0
    ensures HasRun(s, n) <==> exists i: nat :: DashesAt(s, i, n)
  {
    if s != "" {
      RunExact(s[1..], n);
      LeadExact(s, n);
      if i: nat :| DashesAt(s[1..], i, n) {
        DashesBehind(s, i, n);
      }
      if i: nat :| DashesAt(s, i, n) {
        if i > 0 {
          DashesBehind(s, i - 1, n);
        }
      }
    }
  }

  lemma {:induction false} LeadOfDashes(k: nat, d: string, s: string)
    requires |d| == k && forall i | 0 <= i < k :: d[i] == '-'
    ensures LeadRun(d + s) == k + LeadRun(s)
  {
    if k > 0 {
      assert (d + s)[1..] == d[1..] + s;
      LeadOfDashes(k - 1, d[1..], s);
    } else {
      assert d + s == s;
    }
  }

  lemma {:induction false} DropLead(s: string, k: nat)
    requires k <= LeadRun(s)
    ensures LeadRun(s[k..]) == LeadRun(s) - k
  {
    if k > 0 {
      DropLead(s[1..], k - 1);
      assert s[1..][k - 1..] == s[k..];
    }
  }

  /** Leading dashes can be dropped when looking for a run. */
  lemma {:induction false} RunAfterLead(s: string, k: nat, n: nat)
    requires k <= LeadRun(s) && n > 0
    ensures HasRun(s, n) <==> LeadRun(s) >= n || HasRun(s[k..], n)
  {
    if k > 0 {
      RunAfterLead(s[1..], k - 1, n);
      assert s[1..][k - 1..] == s[k..];
    } else {
      assert s[0..] == s;
    }
  }

  lemma {:induction false} LeadAfterBreak(s: string)
    ensures LeadRun(Break(s)) == if LeadRun(s) >= 10 then 5 else LeadRun(s)
  {
    if s != "" {
      if LeadRun(s) >= 10 {
        LeadOfBroken(Break(s[10..]));
      } else {
        LeadAfterBreak(s[1..]);
        assert Break(s)[1..] == Break(s[1..]);
      }
    }
  }

  lemma LeadOfBroken(u: string)
    ensures LeadRun("-----\n-----" + u) == 5
  {
    LeadOfDashes(5, DASHES, "\n-----" + u);
    assert "-----\n-----" + u == DASHES + ("\n-----" + u);
  }

  lemma RunInBroken(u: string, n: nat)
    requires n > 5
    ensures HasRun("-----\n-----" + u, n) <==> 5 + LeadRun(u) >= n || HasRun(u, n)
  {
    var tail := DASHES + u;
    var s := DASHES + ("\n" + tail);
    assert "-----\n-----" + u == s;
    LeadOfDashes(5, DASHES, "\n" + tail);
    LeadOfDashes(5, DASHES, u);
    RunAfterLead(s, 5, n);
    assert s[5..] == "\n" + tail && ("\n" + tail)[1..] == tail;
    RunAfterLead(tail, 5, n);
    assert tail[5..] == u;
  }

  /** A run of ten survives breaking exactly when there was a run of fifteen. */
  lemma {:induction false} FifteenLeavesTen(s: string)
    ensures HasRun(Break(s), 10) <==> HasRun(s, 15)
    decreases |s|
  {
    if s != "" {
      LeadAfterBreak(s);
      if LeadRun(s) >= 10 {
        var t := s[10..];
        FifteenLeavesTen(t);
        LeadAfterBreak(t);
        DropLead(s, 10);
        RunInBroken(Break(t), 10);
        RunAfterLead(s, 10, 15);
      } else {
        FifteenLeavesTen(s[1..]);
        assert Break(s)[1..] == Break(s[1..]);
      }
    }
  }

  /** Breaking changes a text exactly when it holds a run of ten. */
  lemma {:induction false} BreakFixesRuns(s: string)
    ensures |Break(s)| >= |s|
    ensures HasRun(s, 10) ==> |Break(s)| > |s|
    ensures !HasRun(s, 10) ==> Break(s) == s
    decreases |s|
  {
    if s != "" {
      if LeadRun(s) >= 10 {
        BreakFixesRuns(s[10..]);
      } else {
        BreakFixesRuns(s[1..]);
      }
    }
  }

  lemma {:induction false} LeadStops(a: string, c: char, b: string)
    requires c != '-'
    ensures LeadRun(a + [c] + b) == LeadRun(a)
  {
    if a != "" {
      assert (a + [c] + b)[1..] == a[1..] + [c] + b;
      LeadStops(a[1..], c, b);
    }
  }

  /** No run crosses a character that is not a dash. */
  lemma {:induction false} BreakAround(a: string, c: char, b: string)
    requires c != '-'
    ensures Break(a + [c] + b) == Break(a) + [c] + Break(b)
    decreases |a|
  {
    var s := a + [c] + b;
    LeadStops(a, c, b);
    if a == "" {
      assert s[1..] == b;
    } else if LeadRun(a) >= 10 {
      assert s[10..] == a[10..] + [c] + b;
      BreakAround(a[10..], c, b);
    } else {
      assert s[1..] == a[1..] + [c] + b;
      BreakAround(a[1..], c, b);
    }
  }

  lemma {:induction false} RunAround(a: string, c: char, b: string, n: nat)
    requires c != '-' && n > 0
    ensures HasRun(a + [c] + b, n) <==> HasRun(a, n) || HasRun(b, n)
  {
    LeadStops(a, c, b);
    if a == "" {
      assert (a + [c] + b)[1..] == b;
    } else {
      assert (a + [c] + b)[1..] == a[1..] + [c] + b;
      RunAround(a[1..], c, b, n);
    }
  }

  lemma {:induction false} ShortHasNoRun(s: string, n: nat)
    requires |s| < n
    ensures !HasRun(s, n)
  {
    if s != "" { ShortHasNoRun(s[1..], n); }
  }

  lemma {:induction false} NoDashNoRun(s: string, n: nat)
    requires NoDash(s) && n > 0
    ensures !HasRun(s, n)
  {
    if s != "" { NoDashNoRun(s[1..], n); }
  }

  // ----- Delimiters

  lemma DelimiterShape(t: string, word: string) returns (middle: string)
    requires IsDelimiter(t, word) && NoDash(word)
    ensures t == DASHES + middle + DASHES && NoDash(middle) && |middle| > |word|
  {
    var blanks, title :|
      AllSpace(blanks) && title != "" && NoDash(title) && t == DASHES + blanks + word + title + DASHES;
    middle := blanks + word + title;
    assert NoDash(blanks) by { assert !IsSpace('-'); }
  }

  lemma DelimiterHasNoRun(t: string, word: string)
    requires IsDelimiter(t, word) && NoDash(word)
    ensures !HasRun(t, 10) && Break(t) == t && Trimmed(t) && t != ""
  {
    var middle := DelimiterShape(t, word);
    var first, rest := middle[0], middle[1..];
    assert middle == [first] + rest;
    assert t == DASHES + [first] + (rest + DASHES);
    RunAround(DASHES, first, rest + DASHES, 10);
    ShortHasNoRun(DASHES, 10);
    RestHasNoRun(rest);
    BreakFixesRuns(t);
  }

  lemma {:induction false} RestHasNoRun(m: string)
    requires NoDash(m)
    ensures !HasRun(m + DASHES, 10)
  {
    if m == "" {
      ShortHasNoRun(m + DASHES, 10);
    } else {
      assert (m + DASHES)[1..] == m[1..] + DASHES;
      RestHasNoRun(m[1..]);
    }
  }

  lemma FooterStart(t: string)
    ensures IsDelimiter(t, END) ==> |t| >= 14 && t[|t| - 1] == '-' && forall k | 0 <= k < 5 :: t[k] == '-'
  {
    if IsDelimiter(t, END) {
      var middle := DelimiterShape(t, END);
    }
  }

  /** Inside a footer and the blanks after it no other footer starts. */
  lemma NoFooterInside(f: string, c: string, q: nat, e: nat)
    requires IsDelimiter(f, END) && AllSpace(c) && 0 < q <= e <= |f| + |c|
    ensures !IsDelimiter((f + c)[q..e], END)
  {
    var t := (f + c)[q..e];
    var middle := DelimiterShape(f, END);
    FooterStart(t);
    if |t| >= 14 && e > |f| {
      assert !IsSpace('-') && t[|t| - 1] == c[e - |f| - 1] && c[e - |f| - 1] in c;
    } else if |t| >= 14 {
      var k := if q < 5 then 5 - q else 0;
      assert t[k] == f[q + k] == middle[q + k - 5];
      assert middle[q + k - 5] in middle;
    }
  }

  // ----- Normalisation

  /** The output of `normalizeX509` for given header, trimmed body and footer, before breaking. */
  function Lines(head: string, body: string, foot: string): string {
    head + "\n" + body + "\n" + foot + "\n"
  }

  /** `normalizeX509`; no match is a thrown error. */
  function Normalized(raw: string): Option<string> {
    match FirstMatch(raw)
    case None => None
    case Some(m) =>
      Some(Break(Lines(Trim(raw[m.head..m.body]), Trim(raw[m.body..m.foot]), Trim(raw[m.foot..m.end]))))
  }

  method NormalizeX509(raw: string) returns (r: Option<string>)
    ensures r == Normalized(raw)
  {
    var found := FirstMatch(raw);
    if found.None? {
      return None;
    }
    var m := found.value;
    var matches := [raw[m.head..m.end], raw[m.head..m.body], raw[m.body..m.foot], raw[m.foot..m.end]];
    matches := matches[1..];
    matches := [Trim(matches[0]), Trim(matches[1]), Trim(matches[2])];
    var result := Join(matches, '\n') + "\n";
    JoinThree(matches[0], matches[1], matches[2]);
    result := Break(result);
    return Some(result);
  }

  lemma JoinThree(a: string, b: string, c: string)
    ensures Join([a, b, c], '\n') + "\n" == Lines(a, b, c)
  {
    assert [a, b, c][1..] == [b, c] && [b, c][1..] == [c];
    assert Join([b, c], '\n') == b + "\n" + c;
    assert a + "\n" + (b + "\n" + c) + "\n" == a + "\n" + b + "\n" + c + "\n";
  }

  /** Both are empty, or they start and end alike. */
  predicate SameEnds(a: string, b: string) {
    if a == "" || b == "" then a == b else a[0] == b[0] && a[|a| - 1] == b[|b| - 1]
  }

  lemma {:induction false} BreakKeepsEnds(s: string)
    ensures SameEnds(s, Break(s))
    decreases |s|
  {
    if s != "" {
      if LeadRun(s) >= 10 {
        TenDashes(s);
        BreakKeepsEnds(s[10..]);
        EndsOfTen(s, Break(s[10..]));
      } else {
        BreakKeepsEnds(s[1..]);
        EndsOfOne(s, Break(s[1..]));
      }
    }
  }

  lemma EndsOfTen(s: string, u: string)
    requires |s| >= 10 && s[0] == '-' && s[9] == '-' && SameEnds(s[10..], u)
    ensures SameEnds(s, "-----\n-----" + u)
  {
    var ten := "-----\n-----";
    assert ten[0] == '-' && ten[|ten| - 1] == '-';
    if u != "" {
      assert (ten + u)[|ten + u| - 1] == u[|u| - 1] == s[10..][|s| - 11];
    }
  }

  lemma EndsOfOne(s: string, u: string)
    requires s != "" && SameEnds(s[1..], u)
    ensures SameEnds(s, [s[0]] + u)
  {
    if u != "" {
      assert ([s[0]] + u)[|u|] == u[|u| - 1] == s[1..][|s| - 2];
    }
  }

  lemma TenDashes(s: string)
    requires LeadRun(s) >= 10
    ensures s[0] == '-' && s[9] == '-'
  {
    DropLead(s, 9);
  }

  lemma BreakLines(head: string, body: string, foot: string)
    ensures Break(Lines(head, body, foot)) == Lines(Break(head), Break(body), Break(foot))
  {
    assert Lines(head, body, foot) == head + ['\n'] + (body + ['\n'] + (foot + ['\n'] + ""));
    BreakAround(head, '\n', body + ['\n'] + (foot + ['\n'] + ""));
    BreakAround(body, '\n', foot + ['\n'] + "");
    BreakAround(foot, '\n', "");
    assert Lines(Break(head), Break(body), Break(foot))
        == Break(head) + ['\n'] + (Break(body) + ['\n'] + (Break(foot) + ['\n'] + ""));
  }

  /** A match at the very start with the last footer is the match. */
  lemma MatchFromStart(s: string, m: Match)
    requires IsMatch(s, m) && m.head == 0
    requires forall j, e | m.foot < j <= e <= |s| :: !IsDelimiter(s[j..e], END)
    ensures FirstMatch(s) == Some(m)
  {
    PatternExact(s, m);
    PatternExact(s, FirstMatch(s).value);
  }

  /** After the footer that ends a text, up to blanks, no other footer starts. */
  lemma NoLaterFooter(s: string, p: nat, foot: string, c: string)
    requires |s| == p + |foot| + |c| && s[p..] == foot + c && IsDelimiter(foot, END) && AllSpace(c)
    ensures forall j, e | p < j <= e <= |s| :: !IsDelimiter(s[j..e], END)
  {
    forall j, e | p < j <= e <= |s| ensures !IsDelimiter(s[j..e], END) {
      SliceOfSuffix(s, p, j, e);
      NoFooterInside(foot, c, j - p, e - p);
    }
  }

  lemma SliceOfSuffix(s: string, p: nat, j: nat, e: nat)
    requires p <= j <= e <= |s|
    ensures s[j..e] == s[p..][j - p..e - p]
  {
  }

  /** Delimiters have nothing to trim. */
  lemma TrimDelimiter(t: string, word: string)
    requires IsDelimiter(t, word) && NoDash(word)
    ensures Trim(t) == t && Break(t) == t
  {
    DelimiterHasNoRun(t, word);
    TrimPadded("", t, "");
    assert "" + t + "" == t;
  }

  lemma NormalizedLines(head: string, body: string, foot: string)
    requires IsDelimiter(head, BEGIN) && IsDelimiter(foot, END) && Trimmed(body)
    ensures Normalized(Lines(head, body, foot)) == Some(Lines(head, Break(body), foot))
  {
    BlanksAroundBody(head, "\n", body, "\n", foot, "\n");
    LinesParts(head, body, foot);
  }

  lemma LinesParts(head: string, body: string, foot: string)
    ensures Lines(head, body, foot) == head + "\n" + body + "\n" + foot + "\n"
  {
  }

  /** Header, body and footer with any blanks, or none, between them and after the footer. */
  function Spaced(head: string, a: string, body: string, b: string, foot: string, c: string): string {
    head + a + body + b + foot + c
  }

  /** Whatever the blanks are, the pattern finds the same header, body and footer, and the same lines come out. */
  lemma BlanksAroundBody(head: string, a: string, body: string, b: string, foot: string, c: string)
    requires IsDelimiter(head, BEGIN) && IsDelimiter(foot, END) && Trimmed(body)
    requires AllSpace(a) && AllSpace(b) && AllSpace(c)
    ensures Normalized(Spaced(head, a, body, b, foot, c)) == Some(Lines(head, Break(body), foot))
  {
    SpacedCut(head, a, body, b, foot, c);
    RegroupedLines(Spaced(head, a, body, b, foot, c), head, a, body, b, foot, c);
    BrokenLines(head, body, foot);
  }

  lemma BrokenLines(head: string, body: string, foot: string)
    requires IsDelimiter(head, BEGIN) && IsDelimiter(foot, END)
    ensures Break(Lines(head, body, foot)) == Lines(head, Break(body), foot)
  {
    BreakLines(head, body, foot);
    TrimDelimiter(head, BEGIN);
    TrimDelimiter(foot, END);
  }

  lemma SpacedCut(head: string, a: string, body: string, b: string, foot: string, c: string)
    ensures var s := Spaced(head, a, body, b, foot, c); var p := |head| + |a| + |body| + |b|;
            && |s| == p + |foot| + |c|
            && s[0..|head|] == head
            && s[|head|..p] == a + body + b
            && s[p..p + |foot|] == foot
            && s[p..] == foot + c
  {
    var s := Spaced(head, a, body, b, foot, c);
    assert s == head + (a + body + b) + (foot + c);
  }

  lemma RegroupedLines(s: string, head: string, a: string, body: string, b: string, foot: string, c: string)
    requires IsDelimiter(head, BEGIN) && IsDelimiter(foot, END) && Trimmed(body)
    requires AllSpace(a) && AllSpace(b) && AllSpace(c)
    requires var p := |head| + |a| + |body| + |b|;
             && |s| == p + |foot| + |c| && s[p..] == foot + c
             && s[0..|head|] == head && s[|head|..p] == a + body + b && s[p..p + |foot|] == foot
    ensures Normalized(s) == Some(Break(Lines(head, body, foot)))
  {
    var p := |head| + |a| + |body| + |b|;
    NoLaterFooter(s, p, foot, c);
    NormalizedFromStart(s, Match(0, |head|, p, p + |foot|), head, a + body + b, foot);
    TrimLines(head, a, body, b, foot);
  }

  lemma TrimLines(head: string, a: string, body: string, b: string, foot: string)
    requires IsDelimiter(head, BEGIN) && IsDelimiter(foot, END) && Trimmed(body) && AllSpace(a) && AllSpace(b)
    ensures Trim(head) == head && Trim(a + body + b) == body && Trim(foot) == foot
  {
    TrimDelimiter(head, BEGIN);
    TrimDelimiter(foot, END);
    TrimPadded(a, body, b);
  }

  /** In particular Windows line ends give the same output as others. */
  lemma LineEndsDoNotMatter(head: string, body: string, foot: string)
    requires IsDelimiter(head, BEGIN) && IsDelimiter(foot, END) && Trimmed(body)
    ensures Normalized(Spaced(head, "\r\n", body, "\r\n", foot, "\r\n"))
            == Normalized(Spaced(head, "\n", body, "\n", foot, "\n"))
            == Normalized(Spaced(head, "", body, "", foot, ""))
  {
    BlanksAroundBody(head, "\r\n", body, "\r\n", foot, "\r\n");
    BlanksAroundBody(head, "\n", body, "\n", foot, "\n");
    BlanksAroundBody(head, "", body, "", foot, "");
  }

  lemma NormalizedFromStart(s: string, m: Match, head: string, middle: string, foot: string)
    requires m.head == 0 && m.body <= m.foot <= m.end <= |s|
    requires head == s[0..m.body] && middle == s[m.body..m.foot] && foot == s[m.foot..m.end]
    requires IsDelimiter(head, BEGIN) && IsDelimiter(foot, END)
    requires forall j, e | m.foot < j <= e <= |s| :: !IsDelimiter(s[j..e], END)
    ensures Normalized(s) == Some(Break(Lines(Trim(head), Trim(middle), Trim(foot))))
  {
    MatchFromStart(s, m);
    GroupsOf(s, m, head, middle, foot);
  }

  lemma GroupsOf(s: string, m: Match, head: string, middle: string, foot: string)
    requires FirstMatch(s) == Some(m)
    requires head == s[m.head..m.body] && middle == s[m.body..m.foot] && foot == s[m.foot..m.end]
    ensures Normalized(s) == Some(Break(Lines(Trim(head), Trim(middle), Trim(foot))))
  {
  }

  /** A text is accepted iff the pattern matches somewhere in it. */
  lemma AcceptedExactly(raw: string)
    ensures Normalized(raw).Some? <==> exists m :: IsMatch(raw, m)
  {
    if Normalized(raw).Some? {
      PatternExact(raw, FirstMatch(raw).value);
    }
    if m :| IsMatch(raw, m) {
      PatternExact(raw, m);
    }
  }

  /** The groups of an accepted text and what they are normalised to. */
  lemma NormalizedShape(raw: string) returns (head: string, body: string, foot: string)
    requires Normalized(raw).Some?
    ensures FirstMatch(raw).Some? && IsMatch(raw, FirstMatch(raw).value)
    ensures var m := FirstMatch(raw).value;
            head == raw[m.head..m.body] && body == raw[m.body..m.foot] && foot == raw[m.foot..m.end]
    ensures IsDelimiter(head, BEGIN) && IsDelimiter(foot, END)
    ensures Normalized(raw) == Some(Lines(head, Break(Trim(body)), foot))
  {
    var m := FirstMatch(raw).value;
    PatternExact(raw, m);
    head, body, foot := raw[m.head..m.body], raw[m.body..m.foot], raw[m.foot..m.end];
    TrimDelimiter(head, BEGIN);
    TrimDelimiter(foot, END);
    BreakLines(head, Trim(body), foot);
  }

  lemma {:induction false} TrimKeepsRuns(s: string, n: nat)
    requires n > 0
    ensures HasRun(Trim(s), n) <==> HasRun(s, n)
  {
    TrimExact(s);
    var a, b :| AllSpace(a) && AllSpace(b) && s == a + Trim(s) + b;
    PaddedRun(a, Trim(s), b, n);
  }

  lemma {:induction false} PaddedRun(a: string, t: string, b: string, n: nat)
    requires AllSpace(a) && AllSpace(b) && n > 0
    ensures HasRun(a + t + b, n) <==> HasRun(t, n)
  {
    assert !IsSpace('-');
    if a != "" {
      assert (a + t + b)[1..] == a[1..] + t + b;
      assert (a + t + b)[0] == a[0] && a[0] in a;
      PaddedRun(a[1..], t, b, n);
    } else if b != "" {
      assert a + t + b == t + [b[0]] + b[1..];
      assert b[0] in b;
      RunAround(t, b[0], b[1..], n);
      NoDashNoRun(b[1..], n);
    } else {
      assert a + t + b == t;
    }
  }

  /**
   Normalising twice is normalising once exactly for texts whose body has no fifteen dashes in a
   row; the output is always accepted again.
   */
  lemma IdempotentExactly(raw: string)
    requires Normalized(raw).Some?
    ensures FirstMatch(raw).Some? && IsMatch(raw, FirstMatch(raw).value)
    ensures Normalized(Normalized(raw).value).Some?
    ensures var m := FirstMatch(raw).value;
            Normalized(Normalized(raw).value) == Normalized(raw) <==> !HasRun(raw[m.body..m.foot], 15)
  {
    var head, body, foot := NormalizedShape(raw);
    var once := Break(Trim(body));
    TrimExact(body);
    BreakKeepsEnds(Trim(body));
    NormalizedLines(head, once, foot);
    TrimKeepsRuns(body, 15);
    FifteenLeavesTen(Trim(body));
    BreakFixesRuns(once);
    assert Lines(head, Break(once), foot) == Lines(head, once, foot) ==> |Break(once)| == |once|;
  }

  // ----- A text it is not stable on

  lemma BreakTen(ten: string, rest: string)
    requires |ten| == 10 && DashesAt(ten, 0, 10)
    ensures Break(ten + rest) == "-----\n-----" + Break(rest)
  {
    LeadOfDashes(10, ten, rest);
    assert (ten + rest)[10..] == rest;
  }

  lemma BreakShort(s: string)
    requires |s| < 10
    ensures Break(s) == s
  {
    ShortHasNoRun(s, 10);
    BreakFixesRuns(s);
  }

  /** Fifteen dashes, five as a string: what breaking makes of them, and breaking that. */
  lemma BreakFifteen(five: string)
    requires five == DASHES
    ensures Break(five + five + five) == five + "\n" + (five + five)
    ensures Break(five + "\n" + (five + five)) == five + "\n" + (five + "\n" + five)
  {
    var ten := five + five;
    assert five + five + five == ten + five;
    assert "-----\n-----" + five == five + "\n" + (five + five);
    assert "-----\n-----" + "" == five + "\n" + five;
    BreakShort(five);
    BreakShort("");
    BreakTen(ten, five);
    BreakTen(ten, "");
    assert ten + "" == ten;
    BreakAround(five, '\n', ten);
  }

  /**
   Between any header and footer, fifteen dashes alone are broken once by the first pass and once
   more by the second.
   */
  lemma FifteenAreNotStable(head: string, foot: string, five: string)
    requires IsDelimiter(head, BEGIN) && IsDelimiter(foot, END) && five == DASHES
    ensures var once := Normalized(Lines(head, five + five + five, foot));
            && once == Some(Lines(head, five + "\n" + (five + five), foot))
            && Normalized(once.value) == Some(Lines(head, five + "\n" + (five + "\n" + five), foot))
            && Normalized(once.value) != once
  {
    BreakFifteen(five);
    FifteenShapes(five);
    NormalizedLines(head, five + five + five, foot);
    NormalizedLines(head, five + "\n" + (five + five), foot);
    LongerLines(head, five + "\n" + (five + five), five + "\n" + (five + "\n" + five), foot);
  }

  lemma FifteenShapes(five: string)
    requires five == DASHES
    ensures Trimmed(five + five + five) && Trimmed(five + "\n" + (five + five))
    ensures |five + "\n" + (five + five)| < |five + "\n" + (five + "\n" + five)|
  {
  }

  lemma LongerLines(head: string, body: string, longer: string, foot: string)
    requires |body| < |longer|
    ensures Lines(head, body, foot) != Lines(head, longer, foot)
  {
    assert |Lines(head, body, foot)| < |Lines(head, longer, foot)|;
  }

  /** There are such headers and footers; blanks may stand before the word, but a label must, without dashes. */
  lemma SomeDelimiters()
    ensures IsDelimiter("-----BEGIN X-----", BEGIN) && IsDelimiter("-----END X-----", END)
    ensures IsDelimiter("----- BEGINX-----", BEGIN)
  {
    assert AllSpace("") && AllSpace(" ") && NoDash(" X") && NoDash("X");
    assert "----- BEGINX-----" == DASHES + " " + BEGIN + "X" + DASHES;
    assert "-----BEGIN X-----" == DASHES + "" + BEGIN + " X" + DASHES;
    assert "-----END X-----" == DASHES + "" + END + " X" + DASHES;
  }

  lemma DelimiterNeeds(t: string)
    ensures IsDelimiter(t, BEGIN) ==> |t| > 15 && forall i | 5 <= i < |t| - 5 :: t[i] != '-'
  {
    if IsDelimiter(t, BEGIN) {
      var middle := DelimiterShape(t, BEGIN);
      forall i | 5 <= i < |t| - 5 ensures t[i] != '-' {
        assert t[i] == middle[i - 5] && middle[i - 5] in middle;
      }
    }
  }

  /** Without a label, or with a dash in it, there is none. */
  lemma NoDelimiters(bare: string, dashed: string)
    requires bare == "-----BEGIN-----" && dashed == "-----BEGIN X-Y-----"
    ensures !IsDelimiter(bare, BEGIN) && !IsDelimiter(dashed, BEGIN)
  {
    DelimiterNeeds(bare);
    DelimiterNeeds(dashed);
    assert dashed[12] == '-';
  }
}
