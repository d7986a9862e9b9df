/** The whole of `formattedHtml` on texts that hold no markdown-like notation and on bullet
    lists, and the final line-break stage on its own. */
module Pipeline {
  import opened Text
  import opened Patterns
  import opened Formatter
  import opened BlockLines

  // ---- The line-break stage ----

  /** `k` line feeds in a row. */
  function Newlines(k: nat): string {
    seq(k, i => '\n')
  }

  /** The rules of the line-break stage: each matches only where its key character is, and none
      looks at the character before. */
  predicate KeyFirst(r: Rule) {
    r.Literal? || r.BlankLines? || r.BreakRun?
  }

  lemma KeyFirstMatch(r: Rule, t: string, p: Option<char>, q: Option<char>)
    requires KeyFirst(r)
    ensures Match(r, t, p) == Match(r, t, q)
    ensures Match(r, t, p).Some? ==> t[0] == Key(r).value
  {
    match r
    case Literal(c, rep) =>
    case BlankLines =>
      if "\n\n" <= t {
        assert t[0] == "\n\n"[0];
      }
    case BreakRun =>
      MatchBreakRun(t, p);
      MatchBreakRun(t, q);
      if BreakCount(t) >= 3 {
        assert At(t, 0, Break);
        assert t[0] == t[0..][..5][0];
      }
  }

  lemma KeyFirstPrev(r: Rule, t: string, p: Option<char>)
    requires KeyFirst(r)
    ensures Scan(r, t, p) == ReplaceAll(r, t)
  {
    if t != [] {
      KeyFirstMatch(r, t, p, None);
    }
  }

  /** Text without the key character of such a rule is copied, and the rule goes on after it. */
  lemma {:induction false} ScanKeyPrefix(r: Rule, u: string, w: string, p: Option<char>)
    requires KeyFirst(r) && Key(r).value !in u
    ensures Scan(r, u + w, p) == u + ReplaceAll(r, w)
    decreases |u|
  {
    if u == [] {
      assert u + w == w;
      KeyFirstPrev(r, w, p);
    } else {
      var t := u + w;
      assert t[0] == u[0];
      KeyFirstMatch(r, t, p, p);
      ScanMiss(r, t, p);
      assert t[1..] == u[1..] + w;
      ScanKeyPrefix(r, u[1..], w, Some(t[0]));
      PrependHead(u, ReplaceAll(r, w));
    }
  }

  /** Text in which no `<` begins a `<br/>`. */
  predicate BreakFree(s: string) {
    forall i | 0 <= i < |s| && s[i] == '<' :: i + 1 < |s| && s[i + 1] != 'b'
  }

  /** Between two texts free of breaks, a break can only start inside what joins them. */
  lemma BreakOnlyInside(u: string, m: string, v: string, i: nat)
    requires BreakFree(u) && BreakFree(v)
    ensures At(u + m + v, i, Break) ==> |u| <= i < |u| + |m|
  {
    var t := u + m + v;
    assert At(t, i, Break) ==> t[i] == t[i..][0] == '<' && t[i + 1] == t[i..][1] == 'b';
    if i < |u| && u[i] == '<' {
      assert t[i] == u[i] && t[i + 1] == u[i + 1];
    } else if |u| + |m| <= i < |t| && t[i] == '<' {
      var j := i - |u| - |m|;
      assert t[i] == v[j];
      assert t[i + 1] == v[j + 1];
    }
  }

  /** Three breaks in a row start with a break and have another ten characters on. */
  lemma TripleParts(t: string, k: nat)
    ensures At(t, k, Break + Break + Break) ==> At(t, k, Break) && At(t, k + 10, Break)
  {
    var triple := Break + Break + Break;
    if At(t, k, triple) {
      assert t[k..][..15] == triple;
      assert t[k..][..5] == triple[..5] == Break;
      assert t[k + 10..][..5] == t[k..][10..15] == triple[10..15] == Break;
    }
  }

  /** One or two breaks between texts free of breaks make no run of three. */
  lemma NoTripleAcross(u: string, m: string, v: string)
    requires BreakFree(u) && BreakFree(v) && |m| <= 10
    ensures !HasTripleBreak(u + m + v)
  {
    var t := u + m + v;
    forall k | 0 <= k <= |t| ensures !At(t, k, Break + Break + Break) {
      BreakOnlyInside(u, m, v, k);
      BreakOnlyInside(u, m, v, k + 10);
      TripleParts(t, k);
    }
  }

  /** A run of three or more breaks starts with three breaks. */
  lemma RunStartsThree(t: string)
    requires BreakCount(t) >= 3
    ensures At(t, 0, Break + Break + Break)
  {
    assert BreakCount(t) == 1 + BreakCount(t[5..]);
    assert BreakCount(t[5..]) == 1 + BreakCount(t[5..][5..]);
    assert t[5..][5..] == t[10..];
    assert Break <= t && Break <= t[5..] && Break <= t[10..];
    assert t[..15] == t[..5] + t[5..][..5] + t[10..][..5];
  }

  /** The break clean-up leaves text without three breaks in a row as it is. */
  lemma {:induction false} CollapseKeeps(t: string)
    requires !HasTripleBreak(t)
    ensures Collapse(t) == t
    decreases |t|
  {
    if t != [] {
      if BreakCount(t) >= 3 {
        RunStartsThree(t);
        assert false;
      }
      ContainsTail(t, Break + Break + Break);
      CollapseKeeps(t[1..]);
      assert t == [t[0]] + t[1..];
    }
  }

  /** A line feed not followed by another passes the blank-line rule. */
  lemma BlankLinesSingle(v: string)
    requires '\n' !in v
    ensures ReplaceAll(BlankLines, "\n" + v) == "\n" + v
  {
    var t := "\n" + v;
    if v != [] {
      assert t[..2][1] == v[0];
    }
    ScanMiss(BlankLines, t, None);
    assert t[1..] == v;
    ScanWithoutKey(BlankLines, v, Some('\n'));
  }

  /** A run of two or more line feeds becomes two breaks. */
  lemma BlankLinesRun(k: nat, v: string)
    requires k >= 2 && '\n' !in v
    ensures ReplaceAll(BlankLines, Newlines(k) + v) == Break + Break + v
  {
    var t := Newlines(k) + v;
    assert t[..2] == "\n\n";
    forall m | 0 <= m < k ensures InClass(Exactly('\n'), t[m]) {
    }
    if v != [] {
      assert t[k] == v[0];
    }
    SpanIs(t, 0, k, Exactly('\n'));
    ScanHit(BlankLines, t, None, Hit(k, Break + Break));
    assert t[k..] == v;
    ScanWithoutKey(BlankLines, v, Some(t[k - 1]));
  }

  /** A single line feed between two lines becomes one break. */
  lemma LineBreaksOne(u: string, v: string)
    requires '\n' !in u && '\n' !in v && BreakFree(u) && BreakFree(v)
    ensures LineBreaks(u + "\n" + v) == u + Break + v
  {
    assert u + "\n" + v == u + ("\n" + v);
    ScanKeyPrefix(BlankLines, u, "\n" + v, None);
    BlankLinesSingle(v);
    ScanKeyPrefix(Literal('\n', Break), u, "\n" + v, None);
    ScanLiteralStep('\n', Break, "\n" + v, None);
    assert ("\n" + v)[1..] == v;
    ScanWithoutKey(Literal('\n', Break), v, Some('\n'));
    var b := u + Break + v;
    assert u + (Break + v) == b;
    NoTripleAcross(u, Break, v);
    CollapseIsScan(b, None);
    CollapseKeeps(b);
  }

  /** Once the blank-line rule has left no line feed and no three breaks in a row, the rest of
      the stage changes nothing. */
  lemma LineBreaksAfterBlank(s: string, a: string)
    requires ReplaceAll(BlankLines, s) == a && '\n' !in a && !HasTripleBreak(a)
    ensures LineBreaks(s) == a
  {
    ScanWithoutKey(Literal('\n', Break), a, None);
    CollapseIsScan(a, None);
    CollapseKeeps(a);
  }

  /** Two or more line feeds in a row between two lines become two breaks. */
  lemma LineBreaksRun(u: string, k: nat, v: string)
    requires k >= 2 && '\n' !in u && '\n' !in v && BreakFree(u) && BreakFree(v)
    ensures LineBreaks(u + Newlines(k) + v) == u + Break + Break + v
  {
    var s := u + Newlines(k) + v;
    var a := u + Break + Break + v;
    BlankLinesAround(u, k, v);
    assert '\n' !in Break + Break;
    NoTripleAcross(u, Break + Break, v);
    assert u + (Break + Break) + v == a;
    LineBreaksAfterBlank(s, a);
  }

  lemma BlankLinesAround(u: string, k: nat, v: string)
    requires k >= 2 && '\n' !in u && '\n' !in v
    ensures ReplaceAll(BlankLines, u + Newlines(k) + v) == u + Break + Break + v
  {
    assert u + Newlines(k) + v == u + (Newlines(k) + v);
    ScanKeyPrefix(BlankLines, u, Newlines(k) + v, None);
    BlankLinesRun(k, v);
    assert u + (Break + Break + v) == u + Break + Break + v;
  }

  /** Text without line feeds or `<` passes the line-break stage unchanged. */
  lemma LineBreaksNone(t: string)
    requires '\n' !in t && '<' !in t
    ensures LineBreaks(t) == t
  {
    ScanWithoutKey(BlankLines, t, None);
    ScanWithoutKey(Literal('\n', Break), t, None);
    ScanWithoutKey(BreakRun, t, None);
  }

  // ---- Text with nothing to format ----

  /** A character some inline rule or the definition rule is keyed on. */
  predicate Special(c: char) {
    c in {'*', '_', '`', '^', '\\', '[', ':'}
  }

  predicate NoSpecial(s: string) {
    forall c | c in s :: !Special(c)
  }

  /** One line with no character an inline or definition rule could start from. */
  predicate Inert(s: string) {
    NoLineBreak(s) && NoSpecial(s)
  }

  /** A character that starts no heading, divider, bullet or numbered item. */
  predicate ClearHead(c: char) {
    c !in {'#', '-', '*', '•'} && !IsDigit(c)
  }

  /** A line the formatter has nothing to rewrite in. */
  predicate Plain(s: string) {
    Inert(s) && (s != [] ==> ClearHead(s[0]))
  }

  /** The characters the five entities are spelled with. */
  predicate EntityChar(c: char) {
    c in {'&', 'a', 'm', 'p', ';', 'l', 't', 'g', 'q', 'u', 'o', '#', '0', '3', '9'}
  }

  /** A character escapes to itself or to an entity that starts with `&` and ends with `;`. */
  lemma EscapeCharChars(c: char)
    ensures forall d | d in EscapeChar(c) :: d == c || EntityChar(d)
    ensures EscapeChar(c) != []
    ensures EscapeChar(c)[0] == c || EscapeChar(c)[0] == '&'
    ensures EscapeChar(c)[|EscapeChar(c)| - 1] == c || EscapeChar(c)[|EscapeChar(c)| - 1] == ';'
  {
  }

  lemma {:induction false} EscapeEachChars(s: string)
    ensures forall d | d in EscapeEach(s) :: d in s || EntityChar(d)
    decreases |s|
  {
    if s != [] {
      EscapeCharChars(s[0]);
      EscapeEachChars(s[1..]);
      assert forall d | d in s[1..] :: d in s;
    }
  }

  /** Escaping keeps a non-empty text's first and last characters, or puts an entity's `&` and
      `;` in their place. */
  lemma EscapeEnds(s: string)
    requires s != []
    ensures Escape(s) != []
    ensures Escape(s)[0] == s[0] || Escape(s)[0] == '&'
    ensures Escape(s)[|Escape(s)| - 1] == s[|s| - 1] || Escape(s)[|Escape(s)| - 1] == ';'
  {
    var n := |s|;
    EscapeIsCharwise(s);
    EscapeCharChars(s[0]);
    EscapeCharChars(s[n - 1]);
    assert s == s[..n - 1] + [s[n - 1]];
    EscapeAppend(s[..n - 1], [s[n - 1]]);
    EscapeOne(s[n - 1]);
  }

  /** Escaping an inert line gives an inert line without `<`. */
  lemma InertEscape(s: string)
    requires Inert(s)
    ensures Inert(Escape(s)) && '<' !in Escape(s)
  {
    var e := Escape(s);
    EscapeIsCharwise(s);
    EscapeEachChars(s);
    EscapeIsSafe(s);
    forall i | 0 <= i < |e| ensures !IsLineTerminator(e[i]) {
      assert e[i] in e;
      if e[i] in s {
        var j :| 0 <= j < |s| && s[j] == e[i];
      }
    }
  }

  lemma PlainEscape(s: string)
    requires Plain(s)
    ensures Plain(Escape(s)) && '<' !in Escape(s)
  {
    InertEscape(s);
    if s != [] {
      EscapeEnds(s);
    }
  }

  /** Escaping leaves text without the five escaped characters alone. */
  lemma EscapeKeeps(t: string)
    requires '&' !in t && '<' !in t && '>' !in t && '"' !in t && '\'' !in t
    ensures Escape(t) == t
  {
    StageMiss('&', Amp, t);
    StageMiss('<', Lt, t);
    StageMiss('>', Gt, t);
    StageMiss('"', Quot, t);
    StageMiss('\'', Apos, t);
  }

  /** Every line of `t` starts with a clear character. */
  predicate HeadsClear(t: string, p: Option<char>) {
    && (t != [] && LineStart(p) ==> ClearHead(t[0]))
    && (forall i | 1 <= i < |t| && IsLineTerminator(t[i - 1]) :: ClearHead(t[i]))
  }

  lemma NoColonNoDefinition(t: string)
    requires ':' !in t
    ensures DefinitionAt(t).None?
  {
    var a := Span(t, 0, Space);
    if a < |t| && IsAsciiLetter(t[a]) {
      var c := Span(t, a + 1, TermChar);
      if c < |t| {
        assert t[c] in t;
      }
    }
  }

  /** No block rule matches at a clear line start; the definition rule needs a colon too. */
  lemma ClearNoMatch(r: Rule, t: string)
    requires BlockRule(r) && t != [] && ClearHead(t[0]) && (r.DefinitionItem? ==> ':' !in t)
    ensures Match(r, t, None).None?
  {
    match r
    case Heading(marks, tag) =>
      HeadingMatch(marks, tag, t);
      assert marks[0] == '#';
      if |marks| <= |t| {
        assert t[..|marks|][0] == t[0];
      }
    case Divider =>
      DividerMatch(t);
      if 3 <= |t| {
        assert t[..3][0] == t[0];
      }
    case BulletItem =>
      BulletMatch(t);
    case NumberedItem =>
      NumberedMatch(t);
    case DefinitionItem =>
      DefinitionMatch(t);
      NoColonNoDefinition(t);
  }

  /** A block rule leaves text whose lines all start clear unchanged; for the definition rule
      the text has no colon either. */
  lemma {:induction false} ScanClear(r: Rule, t: string, p: Option<char>)
    requires BlockRule(r) && (r.DefinitionItem? ==> ':' !in t) && HeadsClear(t, p)
    ensures Scan(r, t, p) == t
    decreases |t|
  {
    if t != [] {
      var u := ClearHeadMiss(r, t, p);
      ScanClear(r, u, Some(t[0]));
    }
  }

  /** No block rule matches where a line starts clear, so the global replace copies the first
      character and goes on over the rest, whose lines start clear as well. */
  lemma ClearHeadMiss(r: Rule, t: string, p: Option<char>) returns (u: string)
    requires BlockRule(r) && (r.DefinitionItem? ==> ':' !in t) && HeadsClear(t, p) && t != []
    ensures u == t[1..] && t == [t[0]] + u
    ensures Scan(r, t, p) == [t[0]] + Scan(r, u, Some(t[0]))
    ensures (r.DefinitionItem? ==> ':' !in u) && HeadsClear(u, Some(t[0]))
  {
    ClearHeadNoMatch(r, t, p);
    ScanMiss(r, t, p);
    HeadsClearRest(t, p);
    u := t[1..];
  }

  /** No block rule matches where a line starts clear. */
  lemma ClearHeadNoMatch(r: Rule, t: string, p: Option<char>)
    requires BlockRule(r) && (r.DefinitionItem? ==> ':' !in t) && HeadsClear(t, p) && t != []
    ensures Match(r, t, p).None?
  {
    if LineStart(p) {
      ClearNoMatch(r, t);
      assert Anchored(r);
      AnchoredMatchAtStart(r, t, p);
    }
  }

  /** The lines after the first character still start clear, and still have no colon. */
  lemma HeadsClearRest(t: string, p: Option<char>)
    requires HeadsClear(t, p) && t != []
    ensures HeadsClear(t[1..], Some(t[0]))
    ensures ':' !in t ==> ':' !in t[1..]
  {
    var u := t[1..];
    forall i | 0 <= i < |u| && (if i == 0 then LineStart(Some(t[0])) else IsLineTerminator(u[i - 1]))
      ensures ClearHead(u[i])
    {
      assert u[i] == t[i + 1];
    }
    assert forall c | c in u :: c in t;
  }

  /** Text whose lines all start clear and which has no backtick passes every block stage before
      the definition rule unchanged. */
  lemma EarlyBlocksClear(t: string)
    requires '`' !in t && HeadsClear(t, None)
    ensures ReplaceAll(CodeFence, t) == t && Headings(t) == t && ReplaceAll(Divider, t) == t
    ensures ReplaceAll(BulletItem, t) == t && ReplaceAll(NumberedItem, t) == t
  {
    ScanWithoutKey(CodeFence, t, None);
    ScanClear(Heading("###", "h3"), t, None);
    ScanClear(Heading("##", "h2"), t, None);
    ScanClear(Heading("#", "h4"), t, None);
    HeadingStages(t, t, t, t);
    ScanClear(Divider, t, None);
    ScanClear(BulletItem, t, None);
    ScanClear(NumberedItem, t, None);
  }

  /** Text whose lines all start clear, with no colon and no backtick, passes the block stages
      unchanged. */
  lemma BlocksClear(t: string)
    requires ':' !in t && '`' !in t && HeadsClear(t, None)
    ensures Blocks(t) == t
  {
    EarlyBlocksClear(t);
    ScanClear(DefinitionItem, t, None);
    BlockStages(t, t, t, t, t, t, t);
  }

  /** Reading the inline stages off their eight results. */
  lemma InlineStages(t: string, b: string, a: string, i: string, c: string, l: string,
                     fb: string, fi: string, r: string)
    requires ReplaceAll(Bold, t) == b && ReplaceAll(AltBold, b) == a
    requires ReplaceAll(Italic, a) == i && ReplaceAll(InlineCode, i) == c
    requires ReplaceAll(LargeText, c) == l && ReplaceAll(FormulaBlock, l) == fb
    requires ReplaceAll(FormulaInline, fb) == fi && ReplaceAll(BracketFormula, fi) == r
    ensures Inlines(t) == r
  {
  }

  lemma InlineKeysAbsent(t: string)
    requires NoSpecial(t)
    ensures '*' !in t && '_' !in t && '`' !in t && '^' !in t && '\\' !in t && '[' !in t
  {
    assert Special('*') && Special('_') && Special('`');
    assert Special('^') && Special('\\') && Special('[');
  }

  lemma BoldStagesKeep(t: string)
    requires '*' !in t && '_' !in t
    ensures ReplaceAll(Bold, t) == t && ReplaceAll(AltBold, t) == t
  {
    ScanWithoutKey(Bold, t, None);
    ScanWithoutKey(AltBold, t, None);
  }

  lemma CodeStagesKeep(t: string)
    requires '*' !in t && '`' !in t && '^' !in t
    ensures ReplaceAll(Italic, t) == t && ReplaceAll(InlineCode, t) == t
    ensures ReplaceAll(LargeText, t) == t
  {
    ScanWithoutKey(Italic, t, None);
    ScanWithoutKey(InlineCode, t, None);
    ScanWithoutKey(LargeText, t, None);
  }

  lemma FormulaStagesKeep(t: string)
    requires '\\' !in t && '[' !in t
    ensures ReplaceAll(FormulaBlock, t) == t && ReplaceAll(FormulaInline, t) == t
    ensures ReplaceAll(BracketFormula, t) == t
  {
    FormulaBlockKeeps(t);
    FormulaInlineKeeps(t);
    BracketFormulaKeeps(t);
  }

  lemma FormulaBlockKeeps(t: string)
    requires '\\' !in t
    ensures ReplaceAll(FormulaBlock, t) == t
  {
    ScanWithoutKey(FormulaBlock, t, None);
  }

  lemma FormulaInlineKeeps(t: string)
    requires '\\' !in t
    ensures ReplaceAll(FormulaInline, t) == t
  {
    ScanWithoutKey(FormulaInline, t, None);
  }

  lemma BracketFormulaKeeps(t: string)
    requires '[' !in t
    ensures ReplaceAll(BracketFormula, t) == t
  {
    ScanWithoutKey(BracketFormula, t, None);
  }

  /** Text without the inline rules' key characters passes the inline stages unchanged. */
  lemma InlinesClear(t: string)
    requires NoSpecial(t)
    ensures Inlines(t) == t
  {
    InlineKeysAbsent(t);
    BoldStagesKeep(t);
    CodeStagesKeep(t);
    FormulaStagesKeep(t);
    InlineStages(t, t, t, t, t, t, t, t, t);
  }

  // ---- The whole of formattedHtml ----

  /** A line with nothing to format comes out escaped and otherwise as it is. */
  lemma FormatPlainLine(s: string)
    requires Plain(s)
    ensures Format(Str(s)) == Escape(s)
  {
    var e := Escape(s);
    PlainEscape(s);
    BlocksClear(e);
    InlinesClear(e);
    LineBreaksNone(e);
  }

  /** The lines of plain text joined by line feeds start clear. */
  lemma HeadsClearJoin(x: string, k: nat, y: string)
    requires Plain(x) && Plain(y) && k >= 1
    ensures HeadsClear(x + Newlines(k) + y, None)
  {
    var t := x + Newlines(k) + y;
    if x != [] {
      assert t[0] == x[0];
    } else {
      assert t[0] == '\n';
    }
    forall i | 1 <= i < |t| && IsLineTerminator(t[i - 1]) ensures ClearHead(t[i]) {
      if |x| <= i < |x| + k {
        assert t[i] == '\n';
      } else if i == |x| + k {
        assert t[i] == y[0];
      }
    }
  }

  lemma NewlinesChars(k: nat)
    ensures forall c | c in Newlines(k) :: c == '\n'
  {
  }

  /** Text without `<` has no break in it. */
  lemma NoTagBreakFree(s: string)
    requires '<' !in s
    ensures BreakFree(s)
  {
    forall i | 0 <= i < |s| ensures s[i] != '<' {
      assert s[i] in s;
    }
  }

  /** `formattedHtml` on a text whose block stages give a text the inline stages leave alone. */
  lemma FormatThrough(s: string, e: string, b: string)
    requires Escape(s) == e && Blocks(e) == b && Inlines(b) == b
    ensures Format(Str(s)) == LineBreaks(b)
  {
  }

  lemma EscapeLines(x: string, k: nat, y: string)
    ensures Escape(x + Newlines(k) + y) == Escape(x) + Newlines(k) + Escape(y)
  {
    var n := Newlines(k);
    NewlinesChars(k);
    EscapeKeeps(n);
    EscapeAppend(x + n, y);
    EscapeAppend(x, n);
  }

  /** Escaped plain lines joined by line feeds pass the block and inline stages unchanged. */
  lemma LinesClear(ex: string, k: nat, ey: string)
    requires Plain(ex) && Plain(ey) && k >= 1
    ensures Blocks(ex + Newlines(k) + ey) == ex + Newlines(k) + ey
    ensures Inlines(ex + Newlines(k) + ey) == ex + Newlines(k) + ey
  {
    var t := ex + Newlines(k) + ey;
    NewlinesChars(k);
    HeadsClearJoin(ex, k, ey);
    assert Special(':') && Special('`');
    BlocksClear(t);
    InlinesClear(t);
  }

  /** Two lines of plain text, with one line feed or a run of them between: the text comes out
      escaped, with one break for a single line feed and two for a run of two or more. */
  lemma FormatLines(x: string, k: nat, y: string)
    requires Plain(x) && Plain(y) && k >= 1
    ensures k == 1 ==> Format(Str(x + Newlines(k) + y)) == Escape(x) + Break + Escape(y)
    ensures k >= 2 ==> Format(Str(x + Newlines(k) + y)) == Escape(x) + Break + Break + Escape(y)
  {
    var n := Newlines(k);
    var ex, ey := Escape(x), Escape(y);
    PlainEscape(x);
    PlainEscape(y);
    EscapeLines(x, k, y);
    LinesClear(ex, k, ey);
    FormatThrough(x + n + y, ex + n + ey, ex + n + ey);
    NoTagBreakFree(ex);
    NoTagBreakFree(ey);
    if k == 1 {
      assert n == "\n";
      LineBreaksOne(ex, ey);
    } else {
      LineBreaksRun(ex, k, ey);
    }
  }

  // ---- A line ending in a colon ----

  /** A definition term: a letter first, then no colon, all on one line. */
  predicate Term(term: string) {
    term != [] && IsAsciiLetter(term[0]) && NoLineBreak(term) && ':' !in term
  }

  lemma TermColonMatch(term: string, x: string)
    requires Term(term) && LineText(x) && x != []
    ensures DefinitionAt(term + ":\n\n" + x)
         == Some(Hit(|term| + 3 + |x|, DefinitionMarkup(term, x)))
  {
    var t := term + ":\n\n" + x;
    var c := |term|;
    TermColonSpans(term, x);
    TermColonRest(term, x);
    assert t[0..c] == term;
    assert t[c + 3..|t|] == x;
    assert DefinitionAt(t) == DefinitionFrom(t, 0);
    assert DefinitionFrom(t, 0) == DefinitionBody(t, 0, c);
  }

  lemma TermColonSpans(term: string, x: string)
    requires Term(term)
    ensures var t := term + ":\n\n" + x;
      && Span(t, 0, Space) == 0 && IsAsciiLetter(t[0])
      && Span(t, 1, TermChar) == |term| && t[|term|] == ':'
  {
    var t := term + ":\n\n" + x;
    var c := |term|;
    assert t[0] == term[0];
    SpanIs(t, 0, 0, Space);
    forall m | 1 <= m < c ensures InClass(TermChar, t[m]) {
      assert t[m] == term[m];
      assert term[m] in term;
    }
    assert t[c] == ':';
    SpanIs(t, 1, c, TermChar);
  }

  lemma TermColonRest(term: string, x: string)
    requires LineText(x) && x != []
    ensures var t := term + ":\n\n" + x;
      RestOfLine(t, |term| + 1) == Some(Capture(|term| + 3, |t|))
  {
    var t := term + ":\n\n" + x;
    var c := |term|;
    assert t[c + 1] == '\n' && t[c + 2] == '\n' && t[c + 3] == x[0];
    SpanIs(t, c + 1, c + 3, Space);
    forall m | c + 3 <= m < |t| ensures InClass(OnLine, t[m]) {
      assert t[m] == x[m - c - 3];
    }
    SpanIs(t, c + 3, |t|, OnLine);
  }

  lemma TermLinesClear(term: string, x: string)
    requires Term(term) && x != [] && NoLineBreak(x) && ClearHead(x[0])
    ensures HeadsClear(term + ":\n\n" + x, None)
  {
    var t := term + ":\n\n" + x;
    var c := |term|;
    assert t[0] == term[0];
    forall i | 1 <= i < |t| && IsLineTerminator(t[i - 1]) ensures ClearHead(t[i]) {
      if i == c + 2 {
        assert t[i] == '\n';
      } else if i == c + 3 {
        assert t[i] == x[0];
      }
    }
  }

  /** A line that ends in a colon, with a blank line after it, takes the next line as its
      definition: the `\s+` after the colon runs over both line feeds. */
  lemma DefinitionTakesBlankLine(term: string, x: string)
    requires Term(term) && '`' !in term
    requires LineText(x) && x != [] && ClearHead(x[0]) && '`' !in x
    ensures Blocks(term + ":\n\n" + x) == DefinitionMarkup(term, x)
  {
    var t := term + ":\n\n" + x;
    var m := DefinitionMarkup(term, x);
    TermLinesClear(term, x);
    EarlyBlocksClear(t);
    TermColonMatch(term, x);
    DefinitionMatch(t);
    ScanWhole(DefinitionItem, t, m);
    BlockStages(t, t, t, t, t, t, m);
  }

  // ---- Bullet lists ----

  /** A tag written by the formatter, other than a break, has no break in it. */
  lemma TagBreakFree(q: string)
    requires q != [] && q[0] != 'b' && '<' !in q
    ensures BreakFree("<" + q)
  {
    var s := "<" + q;
    forall j | 1 <= j < |s| ensures s[j] != '<' {
      assert s[j] == q[j - 1];
      assert q[j - 1] in q;
    }
  }

  lemma BreakFreeJoin(a: string, b: string)
    requires BreakFree(a) && BreakFree(b)
    ensures BreakFree(a + b)
  {
    var t := a + b;
    forall i | 0 <= i < |t| && t[i] == '<' ensures i + 1 < |t| && t[i + 1] != 'b' {
      if i < |a| {
        assert t[i] == a[i] && t[i + 1] == a[i + 1];
      } else {
        assert t[i] == b[i - |a|] && t[i + 1] == b[i - |a| + 1];
      }
    }
  }

  lemma BulletOpenBreakFree()
    ensures BreakFree(BulletItemOpen)
  {
    assert BulletItemOpen == "<" + "div class=\"bullet-item\">";
    TagBreakFree("div class=\"bullet-item\">");
  }

  lemma BulletMarkBreakFree()
    ensures BreakFree(BulletMark)
  {
    assert BulletMark == ("<" + "span class=\"bullet\">•") + ("<" + "/span>");
    TagBreakFree("span class=\"bullet\">•");
    TagBreakFree("/span>");
    BreakFreeJoin("<" + "span class=\"bullet\">•", "<" + "/span>");
  }

  lemma ContentOpenBreakFree()
    ensures BreakFree(ContentOpen)
  {
    assert ContentOpen == "<" + "span class=\"content\">";
    TagBreakFree("span class=\"content\">");
  }

  lemma ClosingTagsBreakFree()
    ensures BreakFree(SpanClose) && BreakFree(DivClose)
  {
    assert SpanClose == "<" + "/span>";
    TagBreakFree("/span>");
    assert DivClose == "<" + "/div>";
    TagBreakFree("/div>");
  }

  lemma NoLineBreakNoFeed(s: string)
    requires NoLineBreak(s)
    ensures '\n' !in s
  {
    forall i | 0 <= i < |s| ensures s[i] != '\n' {
      assert !IsLineTerminator(s[i]);
    }
  }

  /** A bullet item written around an inert text without `<` is itself inert and has no break. */
  lemma BulletMarkupClear(x: string)
    requires Inert(x) && '<' !in x
    ensures NoSpecial(BulletMarkup(x)) && '\n' !in BulletMarkup(x) && BreakFree(BulletMarkup(x))
  {
    BulletMarkupNoSpecial(x);
    BulletMarkupOnLine(x);
    NoLineBreakNoFeed(BulletMarkup(x));
    BulletMarkupBreakFree(x);
  }

  lemma NoSpecialJoin(a: string, b: string)
    requires NoSpecial(a) && NoSpecial(b)
    ensures NoSpecial(a + b)
  {
  }

  lemma BulletTagsNoSpecial()
    ensures NoSpecial(BulletItemOpen) && NoSpecial(BulletMark) && NoSpecial(ContentOpen)
  {
  }

  lemma ClosingTagsNoSpecial()
    ensures NoSpecial(SpanClose) && NoSpecial(DivClose)
  {
  }

  lemma BulletMarkupNoSpecial(x: string)
    requires NoSpecial(x)
    ensures NoSpecial(BulletMarkup(x))
  {
    BulletTagsNoSpecial();
    ClosingTagsNoSpecial();
    var a := BulletItemOpen + BulletMark;
    NoSpecialJoin(BulletItemOpen, BulletMark);
    NoSpecialJoin(a, ContentOpen);
    NoSpecialJoin(a + ContentOpen, x);
    NoSpecialJoin(a + ContentOpen + x, SpanClose);
    NoSpecialJoin(a + ContentOpen + x + SpanClose, DivClose);
  }

  lemma BulletMarkupBreakFree(x: string)
    requires '<' !in x
    ensures BreakFree(BulletMarkup(x))
  {
    BulletOpenBreakFree();
    BulletMarkBreakFree();
    ContentOpenBreakFree();
    ClosingTagsBreakFree();
    NoTagBreakFree(x);
    var a := BulletItemOpen + BulletMark;
    BreakFreeJoin(BulletItemOpen, BulletMark);
    BreakFreeJoin(a, ContentOpen);
    BreakFreeJoin(a + ContentOpen, x);
    BreakFreeJoin(a + ContentOpen + x, SpanClose);
    BreakFreeJoin(a + ContentOpen + x + SpanClose, DivClose);
  }

  lemma EscapeBullets(x: string, y: string)
    ensures Escape("- " + x + "\n- " + y) == "- " + Escape(x) + "\n- " + Escape(y)
  {
    EscapeKeeps("- ");
    EscapeKeeps("\n- ");
    EscapeAppend("- ", x);
    EscapeAppend("- " + x, "\n- ");
    EscapeAppend("- " + x + "\n- ", y);
  }

  /** The block stages on two escaped bullet lines. */
  lemma BulletsBlocks(x: string, y: string)
    requires Inert(x) && x != [] && !IsSpace(x[0]) && !IsSpace(x[|x| - 1])
    requires Inert(y) && (y == [] || !IsSpace(y[0]))
    ensures Blocks(Escape("- " + x + "\n- " + y))
         == BulletMarkup(Escape(x)) + "\n" + BulletMarkup(Escape(y))
  {
    var ex, ey := Escape(x), Escape(y);
    InertEscape(x);
    InertEscape(y);
    EscapeEnds(x);
    if y != [] {
      EscapeEnds(y);
    }
    assert Special('`') && Special(':');
    NoBacktickNoFence(ex);
    NoBacktickNoFence(ey);
    EscapeBullets(x, y);
    TwoBullets(ex, ey);
  }

  /** Two `- ` bullet lines of inert text become two bullet items with one break between. */
  lemma FormatTwoBullets(x: string, y: string)
    requires Inert(x) && x != [] && !IsSpace(x[0]) && !IsSpace(x[|x| - 1])
    requires Inert(y) && (y == [] || !IsSpace(y[0]))
    ensures Format(Str("- " + x + "\n- " + y))
         == BulletMarkup(Escape(x)) + Break + BulletMarkup(Escape(y))
  {
    var ex, ey := Escape(x), Escape(y);
    InertEscape(x);
    InertEscape(y);
    BulletsBlocks(x, y);
    var mx, my := BulletMarkup(ex), BulletMarkup(ey);
    BulletMarkupClear(ex);
    BulletMarkupClear(ey);
    InlinesClear(mx + "\n" + my);
    FormatThrough("- " + x + "\n- " + y, Escape("- " + x + "\n- " + y), mx + "\n" + my);
    LineBreaksOne(mx, my);
  }
}
