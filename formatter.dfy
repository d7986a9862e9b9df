/** `formattedHtml` of the FormattedText component: the text is escaped, its markdown-like
    notations become markup, and its line breaks become `<br/>`. Every stage is one global
    replace, applied in the order of the component. */
module Formatter {
  import opened Text
  import opened Patterns

  // ---- Escaping ----

  const Amp := "&amp;"
  const Lt := "&lt;"
  const Gt := "&gt;"
  const Quot := "&quot;"
  const Apos := "&#039;"

  /** The five escaping replaces, ampersand first. */
  function Escape(s: string): string {
    var s1 := ReplaceAll(Literal('&', Amp), s);
    var s2 := ReplaceAll(Literal('<', Lt), s1);
    var s3 := ReplaceAll(Literal('>', Gt), s2);
    var s4 := ReplaceAll(Literal('"', Quot), s3);
    ReplaceAll(Literal('\'', Apos), s4)
  }

  /** The entity one character escapes to. */
  function EscapeChar(c: char): string {
    if c == '&' then Amp
    else if c == '<' then Lt
    else if c == '>' then Gt
    else if c == '"' then Quot
    else if c == '\'' then Apos
    else [c]
  }

  /** Escaping character by character: the reference the replace chain is measured against. */
  function EscapeEach(s: string): string {
    if s == [] then [] else EscapeChar(s[0]) + EscapeEach(s[1..])
  }

  /** An entity written by the escaping starts at index `i`. */
  predicate EntityAt(t: string, i: nat) {
    At(t, i, Amp) || At(t, i, Lt) || At(t, i, Gt) || At(t, i, Quot) || At(t, i, Apos)
  }

  /** Text that markup cannot be injected through: no raw `<`, `>`, `"` or `'`, and every `&`
      begins an entity. */
  predicate Escaped(t: string) {
    forall i | 0 <= i < |t| ::
      t[i] != '<' && t[i] != '>' && t[i] != '"' && t[i] != '\'' && (t[i] == '&' ==> EntityAt(t, i))
  }

  /** Decoding the five entities, the inverse of the escaping. */
  function Unescape(t: string): string
    decreases |t|
  {
    if t == [] then []
    else if At(t, 0, Amp) then "&" + Unescape(t[|Amp|..])
    else if At(t, 0, Lt) then "<" + Unescape(t[|Lt|..])
    else if At(t, 0, Gt) then ">" + Unescape(t[|Gt|..])
    else if At(t, 0, Quot) then "\"" + Unescape(t[|Quot|..])
    else if At(t, 0, Apos) then "'" + Unescape(t[|Apos|..])
    else [t[0]] + Unescape(t[1..])
  }

  lemma EscapeAppend(a: string, b: string)
    ensures Escape(a + b) == Escape(a) + Escape(b)
  {
    ScanLiteralAppend('&', Amp, a, b, None, None);
    var a1, b1 := ReplaceAll(Literal('&', Amp), a), ReplaceAll(Literal('&', Amp), b);
    ScanLiteralAppend('<', Lt, a1, b1, None, None);
    var a2, b2 := ReplaceAll(Literal('<', Lt), a1), ReplaceAll(Literal('<', Lt), b1);
    ScanLiteralAppend('>', Gt, a2, b2, None, None);
    var a3, b3 := ReplaceAll(Literal('>', Gt), a2), ReplaceAll(Literal('>', Gt), b2);
    ScanLiteralAppend('"', Quot, a3, b3, None, None);
    var a4, b4 := ReplaceAll(Literal('"', Quot), a3), ReplaceAll(Literal('"', Quot), b3);
    ScanLiteralAppend('\'', Apos, a4, b4, None, None);
  }

  /** One replace stage on a text: the stage's character becomes its entity if the text is that
      character, and anything else without it is left alone. */
  lemma StageHit(c: char, rep: string)
    ensures ReplaceAll(Literal(c, rep), [c]) == rep
  {
    ScanLiteralOne(c, rep, c);
  }

  lemma StageMiss(c: char, rep: string, t: string)
    requires c !in t
    ensures ReplaceAll(Literal(c, rep), t) == t
  {
    ScanWithoutKey(Literal(c, rep), t, None);
  }


  /** Reading the escaping of a one-character text off its five stages. */
  lemma EscapeStages(x: char, e1: string, e2: string, e3: string, e4: string, e5: string)
    requires ReplaceAll(Literal('&', Amp), [x]) == e1
    requires ReplaceAll(Literal('<', Lt), e1) == e2
    requires ReplaceAll(Literal('>', Gt), e2) == e3
    requires ReplaceAll(Literal('"', Quot), e3) == e4
    requires ReplaceAll(Literal('\'', Apos), e4) == e5
    ensures Escape([x]) == e5
  {
  }

  /** An entity passes the four later stages unchanged. */
  lemma EntityKept(e: string)
    requires '<' !in e && '>' !in e && '"' !in e && '\'' !in e
    ensures ReplaceAll(Literal('<', Lt), e) == e
    ensures ReplaceAll(Literal('>', Gt), e) == e
    ensures ReplaceAll(Literal('"', Quot), e) == e
    ensures ReplaceAll(Literal('\'', Apos), e) == e
  {
    ScanWithoutKey(Literal('<', Lt), e, None);
    ScanWithoutKey(Literal('>', Gt), e, None);
    ScanWithoutKey(Literal('"', Quot), e, None);
    ScanWithoutKey(Literal('\'', Apos), e, None);
  }

  lemma EscapeOneAmp(x: char)
    requires x == '&'
    ensures Escape([x]) == Amp
  {
    StageHit('&', Amp);
    EntityKept(Amp);
    EscapeStages(x, Amp, Amp, Amp, Amp, Amp);
  }

  lemma EscapeOneLt()
    ensures Escape("<") == Lt
  {
    StageMiss('&', Amp, "<");
    StageHit('<', Lt);
    StageMiss('>', Gt, Lt);
    StageMiss('"', Quot, Lt);
    StageMiss('\'', Apos, Lt);
    EscapeStages('<', "<", Lt, Lt, Lt, Lt);
  }

  lemma EscapeOneGt()
    ensures Escape(">") == Gt
  {
    StageMiss('&', Amp, ">");
    StageMiss('<', Lt, ">");
    StageHit('>', Gt);
    StageMiss('"', Quot, Gt);
    StageMiss('\'', Apos, Gt);
    EscapeStages('>', ">", ">", Gt, Gt, Gt);
  }

  lemma EscapeOneQuot()
    ensures Escape("\"") == Quot
  {
    StageMiss('&', Amp, "\"");
    StageMiss('<', Lt, "\"");
    StageMiss('>', Gt, "\"");
    StageHit('"', Quot);
    StageMiss('\'', Apos, Quot);
    EscapeStages('"', "\"", "\"", "\"", Quot, Quot);
  }

  lemma EscapeOneApos()
    ensures Escape("'") == Apos
  {
    StageMiss('&', Amp, "'");
    StageMiss('<', Lt, "'");
    StageMiss('>', Gt, "'");
    StageMiss('"', Quot, "'");
    StageHit('\'', Apos);
    EscapeStages('\'', "'", "'", "'", "'", Apos);
  }

  lemma EscapeOnePlain(x: char)
    requires x != '&' && x != '<' && x != '>' && x != '"' && x != '\''
    ensures Escape([x]) == [x]
  {
    StageMiss('&', Amp, [x]);
    StageMiss('<', Lt, [x]);
    StageMiss('>', Gt, [x]);
    StageMiss('"', Quot, [x]);
    StageMiss('\'', Apos, [x]);
    EscapeStages(x, [x], [x], [x], [x], [x]);
  }

  lemma EscapeOne(x: char)
    ensures Escape([x]) == EscapeChar(x)
  {
    if x == '&' { EscapeOneAmp(x); }
    else if x == '<' { EscapeOneLt(); }
    else if x == '>' { EscapeOneGt(); }
    else if x == '"' { EscapeOneQuot(); }
    else if x == '\'' { EscapeOneApos(); }
    else { EscapeOnePlain(x); }
  }

  /** The chain of five replaces escapes each character on its own: `&` goes first, so no entity
      written by a later stage is escaped again. */
  lemma {:induction false} EscapeIsCharwise(s: string)
    ensures Escape(s) == EscapeEach(s)
    decreases |s|
  {
    if s == [] {
    } else {
      assert s == [s[0]] + s[1..];
      EscapeAppend([s[0]], s[1..]);
      EscapeOne(s[0]);
      EscapeIsCharwise(s[1..]);
    }
  }

  lemma EscapedAppend(a: string, b: string)
    requires Escaped(a) && Escaped(b)
    ensures Escaped(a + b)
  {
    var t := a + b;
    forall i | 0 <= i < |t| && t[i] == '&' ensures EntityAt(t, i) {
      if i < |a| {
        assert EntityAt(a, i);
        assert a[i..] <= t[i..];
      } else {
        assert EntityAt(b, i - |a|);
        assert t[i..] == b[i - |a|..];
      }
    }
  }

  lemma {:induction false} EscapeEachSafe(s: string)
    ensures Escaped(EscapeEach(s))
    decreases |s|
  {
    if s != [] {
      var c := s[0];
      EscapeCharSafe(c);
      EscapeEachSafe(s[1..]);
      EscapedAppend(EscapeChar(c), EscapeEach(s[1..]));
    }
  }

  lemma EntitySafe(e: string)
    requires e == Amp || e == Lt || e == Gt || e == Quot || e == Apos
    ensures Escaped(e)
  {
    assert e[0..] == e;
    assert EntityAt(e, 0);
  }

  lemma EscapeCharSafe(c: char)
    ensures Escaped(EscapeChar(c))
  {
    if c == '&' || c == '<' || c == '>' || c == '"' || c == '\'' {
      EntitySafe(EscapeChar(c));
    }
  }


  /** The escaped text carries no markup of its own. */
  lemma EscapeIsSafe(s: string)
    ensures Escaped(Escape(s))
  {
    EscapeIsCharwise(s);
    EscapeEachSafe(s);
  }

  lemma UnescapeAmp(rest: string)
    ensures Unescape(Amp + rest) == "&" + Unescape(rest)
  {
    assert (Amp + rest)[|Amp|..] == rest;
  }

  lemma UnescapeLt(rest: string)
    ensures Unescape(Lt + rest) == "<" + Unescape(rest)
  {
    var t := Lt + rest;
    assert t[1] == 'l' && t[|Lt|..] == rest;
  }

  lemma UnescapeGt(rest: string)
    ensures Unescape(Gt + rest) == ">" + Unescape(rest)
  {
    var t := Gt + rest;
    assert t[1] == 'g' && t[|Gt|..] == rest;
  }

  lemma UnescapeQuot(rest: string)
    ensures Unescape(Quot + rest) == "\"" + Unescape(rest)
  {
    var t := Quot + rest;
    assert t[1] == 'q' && t[|Quot|..] == rest;
  }

  lemma UnescapeApos(rest: string)
    ensures Unescape(Apos + rest) == "'" + Unescape(rest)
  {
    var t := Apos + rest;
    assert t[1] == '#' && t[|Apos|..] == rest;
  }

  lemma UnescapePlain(c: char, rest: string)
    requires c !in "&<>\"'"
    ensures Unescape([c] + rest) == [c] + Unescape(rest)
  {
    var t := [c] + rest;
    assert t[0] == c && t[1..] == rest;
  }

  lemma UnescapeFirst(c: char, rest: string)
    ensures Unescape(EscapeChar(c) + rest) == [c] + Unescape(rest)
  {
    if c == '&' { UnescapeAmp(rest); }
    else if c == '<' { UnescapeLt(rest); }
    else if c == '>' { UnescapeGt(rest); }
    else if c == '"' { UnescapeQuot(rest); }
    else if c == '\'' { UnescapeApos(rest); }
    else { UnescapePlain(c, rest); }
  }


  lemma {:induction false} UnescapeEscapeEach(s: string)
    ensures Unescape(EscapeEach(s)) == s
    decreases |s|
  {
    if s != [] {
      var e := EscapeEach(s[1..]);
      assert EscapeEach(s) == EscapeChar(s[0]) + e;
      UnescapeFirst(s[0], e);
      UnescapeEscapeEach(s[1..]);
      assert [s[0]] + s[1..] == s;
    }
  }


  /** Escaping loses nothing: decoding the entities gives the text back. */
  lemma EscapeRoundTrip(s: string)
    ensures Unescape(Escape(s)) == s
  {
    EscapeIsCharwise(s);
    UnescapeEscapeEach(s);
  }

  // ---- The stages ----

  /** `###`, then `##`, then `#` headings. */
  function Headings(s: string): string {
    var h3 := ReplaceAll(Heading("###", "h3"), s);
    var h2 := ReplaceAll(Heading("##", "h2"), h3);
    ReplaceAll(Heading("#", "h4"), h2)
  }

  /** Bulleted, then numbered, then definition items. */
  function Lists(s: string): string {
    ReplaceAll(DefinitionItem, ReplaceAll(NumberedItem, ReplaceAll(BulletItem, s)))
  }

  /** The block-level stages: code fences first, then headings, dividers and list items. */
  function Blocks(s: string): string {
    Lists(ReplaceAll(Divider, Headings(ReplaceAll(CodeFence, s))))
  }

  /** The inline stages, in the component's order. */
  function Inlines(s: string): string {
    var b := ReplaceAll(Bold, s);
    var a := ReplaceAll(AltBold, b);
    var i := ReplaceAll(Italic, a);
    var c := ReplaceAll(InlineCode, i);
    var l := ReplaceAll(LargeText, c);
    var fb := ReplaceAll(FormulaBlock, l);
    var fi := ReplaceAll(FormulaInline, fb);
    ReplaceAll(BracketFormula, fi)
  }

  /** Three or more breaks in a row. */
  predicate HasTripleBreak(t: string) {
    Contains(t, Break + Break + Break)
  }

  /** The final clean-up: runs of blank lines, then every line feed, become breaks, and runs of
      three or more breaks shrink to two. */
  function LineBreaks(s: string): (r: string)
    ensures '\n' !in r
    ensures !HasTripleBreak(r)
  {
    var a := ReplaceAll(BlankLines, s);
    var b := ReplaceAll(Literal('\n', Break), a);
    LiteralRemoved('\n', Break, a, None);
    CollapseIsScan(b, None);
    CollapseKeepsOut('\n', b);
    CollapseNoTriple(b);
    ReplaceAll(BreakRun, b)
  }

  /** `formattedHtml`: a missing text renders as nothing; anything else is converted to a
      string, escaped, and sent through the block, inline and line-break stages. The result has
      no line feeds left and never three breaks in a row. */
  function Format(input: Input): (r: string)
    ensures input.Missing? ==> r == ""
    ensures '\n' !in r
    ensures !HasTripleBreak(r)
  {
    match input
    case Missing => ""
    case Str(s) => LineBreaks(Inlines(Blocks(Escape(s))))
    case Other(shown) => LineBreaks(Inlines(Blocks(Escape(shown))))
  }

  // ---- Code fences ----

  /** A text without a backtick holds no "```". */
  lemma NoBacktickNoFence(p: string)
    requires '`' !in p
    ensures !Contains(p, "```")
  {
    forall k | 0 <= k <= |p| ensures !At(p, k, "```") {
      if k < |p| {
        assert p[k..][0] == p[k];
      }
    }
  }

  /** Two texts without "```" joined by a piece without backticks hold none either. */
  lemma NoFenceAcross(p: string, m: string, x: string)
    requires !Contains(p, "```") && !Contains(x, "```") && m != [] && '`' !in m
    ensures !Contains(p + m + x, "```")
  {
    var t := p + m + x;
    forall k | 0 <= k <= |t| ensures !At(t, k, "```") {
      if k + 3 <= |p| {
        assert t[k..][..3] == p[k..][..3];
        assert !At(p, k, "```");
      } else if k >= |p| + |m| {
        assert t[k..] == x[k - |p| - |m|..];
        assert !At(x, k - |p| - |m|, "```");
      } else if k + 3 <= |t| {
        var j := if k >= |p| then k else |p|;
        assert t[j] == m[j - |p|];
        assert t[k..][j - k] == t[j];
      }
    }
  }


  /** The code fence rule does not look at the character before. */
  lemma FenceAnyPrev(t: string, p: Option<char>)
    ensures Scan(CodeFence, t, p) == ReplaceAll(CodeFence, t)
  {
    if t != [] {
      FenceMatch(t, p);
      FenceMatch(t, None);
    }
  }

  /** Where the text does not start with "```", not even by running into a line break, no
      fence opens. */
  lemma NoFenceOpen(a: string, rest: string, p: Option<char>)
    requires a != [] && !At(a, 0, "```") && (rest == [] || rest[0] == '\n')
    ensures Match(CodeFence, a + rest, p).None?
  {
    var t := a + rest;
    FenceMatch(t, p);
    if |a| >= 3 {
      assert t[..3] == a[..3];
    } else if 3 <= |t| {
      assert t[|a|] == '\n';
      assert t[..3][|a|] == '\n';
    }
  }

  lemma ContainsTail(a: string, pat: string)
    requires a != [] && !Contains(a, pat)
    ensures !Contains(a[1..], pat) && !At(a, 0, pat)
  {
    forall k | 0 <= k <= |a[1..]| ensures !At(a[1..], k, pat) {
      assert a[1..][k..] == a[k + 1..];
      assert !At(a, k + 1, pat);
    }
  }

  /** A text without "```" that ends where a line break or nothing follows holds no fence
      opening, so the fence rule copies it. */
  lemma {:induction false} FenceSkips(a: string, rest: string, p: Option<char>)
    requires !Contains(a, "```") && (rest == [] || rest[0] == '\n')
    ensures Scan(CodeFence, a + rest, p) == a + ReplaceAll(CodeFence, rest)
    decreases |a|
  {
    if a == [] {
      assert a + rest == rest;
      FenceAnyPrev(rest, p);
    } else {
      FenceSkipStep(a, rest, p);
      FenceSkips(a[1..], rest, Some(a[0]));
      PrependHead(a, ReplaceAll(CodeFence, rest));
    }
  }

  /** The fence rule copies the first character of a text without "```". */
  lemma FenceSkipStep(a: string, rest: string, p: Option<char>)
    requires a != [] && !Contains(a, "```") && (rest == [] || rest[0] == '\n')
    ensures !Contains(a[1..], "```")
    ensures Scan(CodeFence, a + rest, p) == [a[0]] + Scan(CodeFence, a[1..] + rest, Some(a[0]))
  {
    var t := a + rest;
    ContainsTail(a, "```");
    NoFenceOpen(a, rest, p);
    ScanMiss(CodeFence, t, p);
    assert t[1..] == a[1..] + rest && t[0] == a[0];
  }

  lemma PrependHead(a: string, w: string)
    requires a != []
    ensures [a[0]] + (a[1..] + w) == a + w
  {
  }

  /** A line break opens no fence. */
  lemma FenceAtBreak(b: string)
    ensures ReplaceAll(CodeFence, "\n" + b) == "\n" + ReplaceAll(CodeFence, b)
  {
    var t := "\n" + b;
    FenceMatch(t, None);
    ScanMiss(CodeFence, t, None);
    assert t[1..] == b;
    FenceAnyPrev(b, Some('\n'));
  }

  /** A line without "```" passes the fence stage unchanged, whatever follows it. */
  lemma FenceLine(a: string, b: string)
    requires !Contains(a, "```")
    ensures ReplaceAll(CodeFence, a + "\n" + b) == a + "\n" + ReplaceAll(CodeFence, b)
    ensures ReplaceAll(CodeFence, a) == a
  {
    FenceHead(a, b);
    FenceAtBreak(b);
    var rb := ReplaceAll(CodeFence, b);
    assert a + ("\n" + rb) == a + "\n" + rb;
    FenceAlone(a);
  }

  lemma FenceHead(a: string, b: string)
    requires !Contains(a, "```")
    ensures ReplaceAll(CodeFence, a + "\n" + b) == a + ReplaceAll(CodeFence, "\n" + b)
  {
    FenceSkips(a, "\n" + b, None);
    assert a + "\n" + b == a + ("\n" + b);
  }

  lemma FenceAlone(a: string)
    requires !Contains(a, "```")
    ensures ReplaceAll(CodeFence, a) == a
  {
    FenceSkips(a, [], None);
    assert a + [] == a;
  }

  // ---- Single lines through the block stages ----

  /** What a line rule captures: text on one line that starts after all of the whitespace. */
  predicate LineText(x: string) {
    NoLineBreak(x) && (x == [] || !IsSpace(x[0]))
  }

  /** Whitespace that stays on its line, such as the gap after a list marker. */
  predicate Gap(ws: string) {
    ws != [] && forall i | 0 <= i < |ws| :: IsSpace(ws[i]) && !IsLineTerminator(ws[i])
  }

  lemma GapOnLine(ws: string)
    requires Gap(ws)
    ensures NoLineBreak(ws)
  {
  }

  /** After a marker, a gap and the captured text, the rule's `\s+(.*)$` captures that text. */
  lemma GapRest(t: string, lead: nat, ws: string, x: string)
    requires lead + |ws| <= |t| && t[lead..lead + |ws|] == ws && t[lead + |ws|..] == x
    requires Gap(ws) && LineText(x)
    ensures RestOfLine(t, lead) == Some(Capture(lead + |ws|, |t|))
  {
    var w := lead + |ws|;
    forall m | lead <= m < w ensures InClass(Space, t[m]) {
      assert t[m] == ws[m - lead];
    }
    assert w < |t| ==> t[w] == x[0];
    SpanIs(t, lead, w, Space);
    assert LineEnd(t, w) == |t|;
    assert t[lead] == ws[0];
  }
  /** After a prefix, a gap and line text, the rest of the line is exactly that text. */
  lemma GapAfter(pre: string, ws: string, x: string)
    requires Gap(ws) && LineText(x)
    ensures RestOfLine(pre + ws + x, |pre|) == Some(Capture(|pre| + |ws|, |pre + ws + x|))
    ensures (pre + ws + x)[|pre| + |ws|..|pre + ws + x|] == x
    ensures (pre + ws + x)[..|pre|] == pre
  {
    var t := pre + ws + x;
    assert t[|pre|..|pre| + |ws|] == ws && t[|pre| + |ws|..] == x;
    GapRest(t, |pre|, ws, x);
  }


  lemma HeadingMarkupOnLine(tag: string, x: string)
    requires NoLineBreak(tag) && NoLineBreak(x)
    ensures NoLineBreak(HeadingMarkup(tag, x))
    ensures HeadingMarkup(tag, x) != [] && HeadingMarkup(tag, x)[0] == '<'
  {
    NoLineBreakJoin("<", tag);
    NoLineBreakJoin("<" + tag, HeadingClass);
    NoLineBreakJoin("<" + tag + HeadingClass, x);
    NoLineBreakJoin("<" + tag + HeadingClass + x, "</");
    NoLineBreakJoin("<" + tag + HeadingClass + x + "</", tag);
    NoLineBreakJoin("<" + tag + HeadingClass + x + "</" + tag, ">");
  }

  lemma BulletMarkupOnLine(x: string)
    requires NoLineBreak(x)
    ensures NoLineBreak(BulletMarkup(x))
    ensures BulletMarkup(x) != [] && BulletMarkup(x)[0] == '<'
  {
    var a := BulletItemOpen + BulletMark + ContentOpen;
    NoLineBreakJoin(BulletItemOpen, BulletMark);
    NoLineBreakJoin(BulletItemOpen + BulletMark, ContentOpen);
    NoLineBreakJoin(a, x);
    NoLineBreakJoin(a + x, SpanClose);
    NoLineBreakJoin(a + x + SpanClose, DivClose);
  }

  lemma NumberedMarkupOnLine(n: string, x: string)
    requires NoLineBreak(n) && NoLineBreak(x)
    ensures NoLineBreak(NumberedMarkup(n, x))
    ensures NumberedMarkup(n, x) != [] && NumberedMarkup(n, x)[0] == '<'
  {
    var a := NumberedItemOpen + NumberOpen;
    NoLineBreakJoin(NumberedItemOpen, NumberOpen);
    NoLineBreakJoin(a, n);
    NoLineBreakJoin(a + n, ".");
    NoLineBreakJoin(a + n + ".", SpanClose);
    NoLineBreakJoin(a + n + "." + SpanClose, ContentOpen);
    var b := a + n + "." + SpanClose + ContentOpen;
    NoLineBreakJoin(b, x);
    NoLineBreakJoin(b + x, SpanClose);
    NoLineBreakJoin(b + x + SpanClose, DivClose);
  }

  lemma DefinitionMarkupOnLine(term: string, x: string)
    requires NoLineBreak(term) && NoLineBreak(x)
    ensures NoLineBreak(DefinitionMarkup(term, x))
    ensures DefinitionMarkup(term, x) != [] && DefinitionMarkup(term, x)[0] == '<'
  {
    DefinitionTagsOnLine();
    var a := DefinitionItemOpen + TermOpen;
    NoLineBreakJoin(DefinitionItemOpen, TermOpen);
    NoLineBreakJoin(a, term);
    NoLineBreakJoin(a + term, TermClose);
    NoLineBreakJoin(a + term + TermClose, DefinitionOpen);
    var b := a + term + TermClose + DefinitionOpen;
    NoLineBreakJoin(b, x);
    NoLineBreakJoin(b + x, SpanClose);
    NoLineBreakJoin(b + x + SpanClose, DivClose);
  }

  lemma DefinitionTagsOnLine()
    ensures NoLineBreak(DefinitionItemOpen) && NoLineBreak(TermOpen) && NoLineBreak(TermClose)
    ensures NoLineBreak(DefinitionOpen) && NoLineBreak(SpanClose) && NoLineBreak(DivClose)
  {
  }

  /** A line that starts with a tag is left alone by every line rule. */
  lemma AnchoredSkipsTag(r: Rule, m: string)
    requires Anchored(r) && NoLineBreak(m) && m != [] && m[0] == '<'
    requires r.Heading? ==> r.marks != [] && r.marks[0] == '#'
    ensures Scan(r, m, None) == m
  {
    ScanAnchoredLine(r, m);
    NoMatchAtTag(r, m);
  }

  /** No line rule matches at a tag. */
  lemma NoMatchAtTag(r: Rule, m: string)
    requires Anchored(r) && m != [] && m[0] == '<'
    requires r.Heading? ==> r.marks != [] && r.marks[0] == '#'
    ensures Match(r, m, None).None?
  {
    match r
    case Heading(marks, tag) => assert !(marks <= m);
    case NumberedItem => SpanIs(m, 0, 0, Digit);
    case DefinitionItem => SpanIs(m, 0, 0, Space);
    case _ =>
  }

  /** Markup written by a block rule passes the later block rules unchanged. */
  lemma LaterBlocksSkipTag(m: string)
    requires NoLineBreak(m) && m != [] && m[0] == '<'
    ensures ReplaceAll(Heading("###", "h3"), m) == m
    ensures ReplaceAll(Heading("##", "h2"), m) == m
    ensures ReplaceAll(Heading("#", "h4"), m) == m
    ensures ReplaceAll(Divider, m) == m
    ensures ReplaceAll(BulletItem, m) == m
    ensures ReplaceAll(NumberedItem, m) == m
    ensures ReplaceAll(DefinitionItem, m) == m
  {
    AnchoredSkipsTag(Heading("###", "h3"), m);
    AnchoredSkipsTag(Heading("##", "h2"), m);
    AnchoredSkipsTag(Heading("#", "h4"), m);
    AnchoredSkipsTag(Divider, m);
    AnchoredSkipsTag(BulletItem, m);
    AnchoredSkipsTag(NumberedItem, m);
    AnchoredSkipsTag(DefinitionItem, m);
  }

  /** A line that does not start with `#` is no heading. */
  lemma HeadingsSkipLine(t: string)
    requires NoLineBreak(t) && t != [] && t[0] != '#'
    ensures Headings(t) == t
  {
    ScanAnchoredLine(Heading("###", "h3"), t);
    ScanAnchoredLine(Heading("##", "h2"), t);
    ScanAnchoredLine(Heading("#", "h4"), t);
  }

  /** A line with no backtick has no fence, and one with no `---` prefix no divider. */
  lemma FenceAndDividerSkipLine(t: string)
    requires NoLineBreak(t) && !Contains(t, "```") && !("---" <= t)
    ensures ReplaceAll(CodeFence, t) == t
    ensures ReplaceAll(Divider, t) == t
  {
    FenceAlone(t);
    ScanAnchoredLine(Divider, t);
  }

  /** A marker, a gap and line text make one line without backticks when the marker has none. */
  lemma LineFacts(pre: string, ws: string, x: string)
    requires NoLineBreak(pre) && !Contains(pre, "```") && Gap(ws) && LineText(x)
    requires !Contains(x, "```")
    ensures NoLineBreak(pre + ws + x) && !Contains(pre + ws + x, "```")
  {
    GapOnLine(ws);
    NoLineBreakJoin(pre, ws);
    NoLineBreakJoin(pre + ws, x);
    assert '`' !in ws by { forall i | 0 <= i < |ws| ensures ws[i] != '`' { assert IsSpace(ws[i]); } }
    NoFenceAcross(pre, ws, x);
  }

  /** Reading the block stages off their six results. */
  lemma BlockStages(t: string, f: string, h: string, d: string, b: string, n: string, r: string)
    requires ReplaceAll(CodeFence, t) == f && Headings(f) == h && ReplaceAll(Divider, h) == d
    requires ReplaceAll(BulletItem, d) == b && ReplaceAll(NumberedItem, b) == n
    requires ReplaceAll(DefinitionItem, n) == r
    ensures Blocks(t) == r
  {
  }

  /** Reading the heading stages off their three results. */
  lemma HeadingStages(t: string, a: string, b: string, c: string)
    requires ReplaceAll(Heading("###", "h3"), t) == a
    requires ReplaceAll(Heading("##", "h2"), a) == b
    requires ReplaceAll(Heading("#", "h4"), b) == c
    ensures Headings(t) == c
  {
  }

  predicate IsHashes(h: string) { h == "#" || h == "##" || h == "###" }

  /** A heading rule rewrites a line with its own number of marks. */
  lemma HeadingAtLine(marks: string, tag: string, ws: string, x: string)
    requires Gap(ws) && LineText(x)
    ensures HeadingAt(marks + ws + x, marks, tag) ==
            Some(Hit(|marks + ws + x|, HeadingMarkup(tag, x)))
  {
    GapAfter(marks, ws, x);
  }

  lemma HeadingRuleHit(marks: string, tag: string, ws: string, x: string)
    requires IsHashes(marks) && Gap(ws) && LineText(x)
    ensures Scan(Heading(marks, tag), marks + ws + x, None) == HeadingMarkup(tag, x)
  {
    var t := marks + ws + x;
    HeadingAtLine(marks, tag, ws, x);
    HeadingMatch(marks, tag, t);
    ScanWhole(Heading(marks, tag), t, HeadingMarkup(tag, x));
  }

  /** A heading rule leaves a line with fewer marks alone. */
  lemma HeadingRuleShort(marks: string, tag: string, hashes: string, ws: string, x: string)
    requires IsHashes(marks) && IsHashes(hashes) && |hashes| < |marks|
    requires Gap(ws) && LineText(x)
    ensures Scan(Heading(marks, tag), hashes + ws + x, None) == hashes + ws + x
  {
    var t := hashes + ws + x;
    assert NoLineBreak(hashes);
    GapOnLine(ws);
    NoLineBreakJoin(hashes, ws);
    NoLineBreakJoin(hashes + ws, x);
    assert t[|hashes|] == ws[0];
    assert !(marks <= t) by { assert marks[|hashes|] == '#'; }
    HeadingMatch(marks, tag, t);
    ScanMissLine(Heading(marks, tag), t);
  }

  /** `###`, `##` and `#` lines become h3, h2 and h4 headings: each line is rewritten by its own
      rule only, whatever order the rules run in. */
  lemma HeadingLines(ws: string, x: string)
    requires Gap(ws) && LineText(x) && !Contains(x, "```")
    ensures Blocks("###" + ws + x) == HeadingMarkup("h3", x)
    ensures Blocks("##" + ws + x) == HeadingMarkup("h2", x)
    ensures Blocks("#" + ws + x) == HeadingMarkup("h4", x)
  {
    Heading3Line(ws, x);
    Heading2Line(ws, x);
    Heading1Line(ws, x);
  }

  lemma Heading3Line(ws: string, x: string)
    requires Gap(ws) && LineText(x) && !Contains(x, "```")
    ensures Blocks("###" + ws + x) == HeadingMarkup("h3", x)
  {
    var t := "###" + ws + x;
    var h := HeadingMarkup("h3", x);
    NoBacktickNoFence("###");
    LineFacts("###", ws, x);
    FenceAlone(t);
    HeadingMarkupOnLine("h3", x);
    LaterBlocksSkipTag(h);
    HeadingRuleHit("###", "h3", ws, x);
    HeadingStages(t, h, h, h);
    BlockStages(t, t, h, h, h, h, h);
  }

  lemma Heading2Line(ws: string, x: string)
    requires Gap(ws) && LineText(x) && !Contains(x, "```")
    ensures Blocks("##" + ws + x) == HeadingMarkup("h2", x)
  {
    var t := "##" + ws + x;
    var h := HeadingMarkup("h2", x);
    NoBacktickNoFence("##");
    LineFacts("##", ws, x);
    FenceAlone(t);
    HeadingMarkupOnLine("h2", x);
    LaterBlocksSkipTag(h);
    HeadingRuleShort("###", "h3", "##", ws, x);
    HeadingRuleHit("##", "h2", ws, x);
    HeadingStages(t, t, h, h);
    BlockStages(t, t, h, h, h, h, h);
  }

  lemma Heading1Line(ws: string, x: string)
    requires Gap(ws) && LineText(x) && !Contains(x, "```")
    ensures Blocks("#" + ws + x) == HeadingMarkup("h4", x)
  {
    var t := "#" + ws + x;
    var h := HeadingMarkup("h4", x);
    NoBacktickNoFence("#");
    LineFacts("#", ws, x);
    FenceAlone(t);
    HeadingMarkupOnLine("h4", x);
    LaterBlocksSkipTag(h);
    HeadingRuleShort("###", "h3", "#", ws, x);
    HeadingRuleShort("##", "h2", "#", ws, x);
    HeadingRuleHit("#", "h4", ws, x);
    HeadingStages(t, t, t, h);
    BlockStages(t, t, h, h, h, h, h);
  }

  /** A line that is exactly `---` becomes a divider. */
  lemma DividerLine()
    ensures Blocks("---") == DividerMarkup
  {
    DividerBlocks();
    DividerLists();
  }

  lemma DividerBlocks()
    ensures Blocks("---") == Lists(ReplaceAll(Divider, "---"))
  {
    DividerEarlyStages();
  }

  lemma DividerLists()
    ensures Lists(ReplaceAll(Divider, "---")) == DividerMarkup
  {
    DividerRuleHit();
    ListsSkipTag(DividerMarkup);
  }

  /** Markup passes the list stages unchanged. */
  lemma ListsSkipTag(m: string)
    requires NoLineBreak(m) && m != [] && m[0] == '<'
    ensures Lists(m) == m
  {
    LaterBlocksSkipTag(m);
  }

  lemma DividerEarlyStages()
    ensures ReplaceAll(CodeFence, "---") == "---" && Headings("---") == "---"
  {
    NoBacktickNoFence("---");
    FenceAlone("---");
    HeadingsSkipLine("---");
  }

  lemma DividerRuleHit()
    ensures ReplaceAll(Divider, "---") == DividerMarkup
  {
    DividerMatch("---");
    ScanWhole(Divider, "---", DividerMarkup);
  }

  /** The stages before the list rules leave a line alone that has no backtick, does not start
      with `#` and has no `---` prefix. */
  lemma EarlyBlocksSkipLine(t: string)
    requires NoLineBreak(t) && !Contains(t, "```") && t != [] && t[0] != '#' && !("---" <= t)
    ensures ReplaceAll(CodeFence, t) == t && Headings(t) == t && ReplaceAll(Divider, t) == t
  {
    FenceAndDividerSkipLine(t);
    HeadingsSkipLine(t);
  }

  lemma BulletAtLine(mark: char, ws: string, x: string)
    requires mark == '-' || mark == '*' || mark == '•'
    requires Gap(ws) && LineText(x)
    ensures BulletAt([mark] + ws + x) == Some(Hit(|[mark] + ws + x|, BulletMarkup(x)))
  {
    GapAfter([mark], ws, x);
  }

  lemma BulletRuleHit(mark: char, ws: string, x: string)
    requires mark == '-' || mark == '*' || mark == '•'
    requires Gap(ws) && LineText(x)
    ensures Scan(BulletItem, [mark] + ws + x, None) == BulletMarkup(x)
  {
    var t := [mark] + ws + x;
    BulletAtLine(mark, ws, x);
    BulletMatch(t);
    ScanWhole(BulletItem, t, BulletMarkup(x));
  }

  /** A line `-`, `*` or `•`, a gap and text becomes a bullet item holding exactly that text; the
      definition rule that runs later does not wrap it again, even when the text has a colon. */
  lemma BulletLine(mark: char, ws: string, x: string)
    requires mark == '-' || mark == '*' || mark == '•'
    requires Gap(ws) && LineText(x) && !Contains(x, "```")
    ensures Blocks([mark] + ws + x) == BulletMarkup(x)
  {
    var t := [mark] + ws + x;
    var b := BulletMarkup(x);
    NoBacktickNoFence([mark]);
    LineFacts([mark], ws, x);
    assert t[1] == ws[0];
    EarlyBlocksSkipLine(t);
    BulletRuleHit(mark, ws, x);
    BulletMarkupOnLine(x);
    LaterBlocksSkipTag(b);
    BlockStages(t, t, t, t, b, b, b);
  }

  lemma DigitsSpan(d: string, ws: string, x: string)
    requires AllDigits(d)
    ensures Span(d + "." + ws + x, 0, Digit) == |d|
    ensures (d + "." + ws + x)[..|d|] == d && (d + "." + ws + x)[|d|] == '.'
  {
    var t := d + "." + ws + x;
    forall m | 0 <= m < |d| ensures InClass(Digit, t[m]) { assert t[m] == d[m]; }
    SpanIs(t, 0, |d|, Digit);
  }


  lemma NumberedAtFrom(t: string, n: nat, w: nat, d: string, x: string)
    requires 0 < n < |t| && Span(t, 0, Digit) == n && t[n] == '.'
    requires RestOfLine(t, n + 1) == Some(Capture(w, |t|))
    requires t[..n] == d && t[w..|t|] == x
    ensures NumberedAt(t) == Some(Hit(|t|, NumberedMarkup(d, x)))
  {
  }

  lemma NumberedAtLine(d: string, ws: string, x: string)
    requires d != [] && AllDigits(d) && Gap(ws) && LineText(x)
    ensures NumberedAt(d + "." + ws + x) == Some(Hit(|d + "." + ws + x|, NumberedMarkup(d, x)))
  {
    DigitsSpan(d, ws, x);
    GapAfter(d + ".", ws, x);
    NumberedAtFrom(d + "." + ws + x, |d|, |d| + 1 + |ws|, d, x);
  }



  lemma NumberedRuleHit(d: string, ws: string, x: string)
    requires d != [] && AllDigits(d) && Gap(ws) && LineText(x)
    ensures Scan(NumberedItem, d + "." + ws + x, None) == NumberedMarkup(d, x)
  {
    var t := d + "." + ws + x;
    NumberedAtLine(d, ws, x);
    NumberedMatch(t);
    ScanWhole(NumberedItem, t, NumberedMarkup(d, x));
  }

  /** A line `N.`, a gap and text becomes a numbered item that keeps the digits and the text. */
  lemma NumberedLine(d: string, ws: string, x: string)
    requires d != [] && AllDigits(d)
    requires Gap(ws) && LineText(x) && !Contains(x, "```")
    ensures Blocks(d + "." + ws + x) == NumberedMarkup(d, x)
  {
    var t := d + "." + ws + x;
    var b := NumberedMarkup(d, x);
    assert '`' !in d by { forall i | 0 <= i < |d| ensures d[i] != '`' { assert IsDigit(d[i]); } }
    assert NoLineBreak(d + ".");
    NoBacktickNoFence(d + ".");
    LineFacts(d + ".", ws, x);
    assert t[0] == d[0];
    EarlyBlocksSkipLine(t);
    BulletMatch(t);
    ScanMissLine(BulletItem, t);
    NumberedRuleHit(d, ws, x);
    NumberedMarkupOnLine(d, x);
    LaterBlocksSkipTag(b);
    BlockStages(t, t, t, t, t, b, b);
  }

  lemma DefinitionFromZero(t: string, c: nat, w: nat)
    requires 0 < c < |t| && Span(t, 1, TermChar) == c && t[c] == ':'
    requires RestOfLine(t, c + 1) == Some(Capture(w, |t|))
    ensures DefinitionFrom(t, 0) == Some(Hit(|t|, DefinitionMarkup(t[0..c], t[w..|t|])))
  {
    assert DefinitionFrom(t, 0) == DefinitionBody(t, 0, c);
  }


  lemma DefinitionAtLetter(t: string)
    requires t != [] && IsAsciiLetter(t[0])
    ensures DefinitionAt(t) == DefinitionFrom(t, 0)
  {
    SpanIs(t, 0, 0, Space);
  }

  lemma DefinitionAtFrom(t: string, c: nat, w: nat, term: string, x: string)
    requires 0 < c < |t| && IsAsciiLetter(t[0]) && Span(t, 1, TermChar) == c && t[c] == ':'
    requires RestOfLine(t, c + 1) == Some(Capture(w, |t|))
    requires t[0..c] == term && t[w..|t|] == x
    ensures DefinitionAt(t) == Some(Hit(|t|, DefinitionMarkup(term, x)))
  {
    DefinitionFromZero(t, c, w);
    DefinitionAtLetter(t);
  }

  lemma TermSpan(term: string, ws: string, x: string)
    requires term != [] && ':' !in term && NoLineBreak(term)
    ensures Span(term + ":" + ws + x, 1, TermChar) == |term|
    ensures (term + ":" + ws + x)[0] == term[0] && (term + ":" + ws + x)[|term|] == ':'
    ensures (term + ":" + ws + x)[0..|term|] == term
  {
    var t := term + ":" + ws + x;
    forall m | 1 <= m < |term| ensures InClass(TermChar, t[m]) {
      assert t[m] == term[m];
      assert !IsLineTerminator(term[m]);
    }
    SpanIs(t, 1, |term|, TermChar);
  }


  lemma DefinitionAtLine(term: string, ws: string, x: string)
    requires term != [] && IsAsciiLetter(term[0]) && ':' !in term && NoLineBreak(term)
    requires Gap(ws) && LineText(x)
    ensures DefinitionAt(term + ":" + ws + x) ==
            Some(Hit(|term + ":" + ws + x|, DefinitionMarkup(term, x)))
  {
    TermSpan(term, ws, x);
    GapAfter(term + ":", ws, x);
    DefinitionAtFrom(term + ":" + ws + x, |term|, |term| + 1 + |ws|, term, x);
  }


  lemma DefinitionRuleHit(term: string, ws: string, x: string)
    requires term != [] && IsAsciiLetter(term[0]) && ':' !in term && NoLineBreak(term)
    requires Gap(ws) && LineText(x)
    ensures Scan(DefinitionItem, term + ":" + ws + x, None) == DefinitionMarkup(term, x)
  {
    var t := term + ":" + ws + x;
    DefinitionAtLine(term, ws, x);
    DefinitionMatch(t);
    ScanWhole(DefinitionItem, t, DefinitionMarkup(term, x));
  }

  /** A line `Term:`, a gap and text, where the term starts with a letter, becomes a definition
      item with the term and the text. */
  lemma DefinitionLine(term: string, ws: string, x: string)
    requires term != [] && IsAsciiLetter(term[0]) && ':' !in term && NoLineBreak(term)
    requires !Contains(term, "```")
    requires Gap(ws) && LineText(x) && !Contains(x, "```")
    ensures Blocks(term + ":" + ws + x) == DefinitionMarkup(term, x)
  {
    var t := term + ":" + ws + x;
    NoLineBreakJoin(term, ":");
    NoFenceAcross(term, ":", []);
    assert term + ":" + [] == term + ":";
    LineFacts(term + ":", ws, x);
    assert t[0] == term[0];
    EarlyBlocksSkipLine(t);
    BulletMatch(t);
    ScanMissLine(BulletItem, t);
    SpanIs(t, 0, 0, Digit);
    NumberedMatch(t);
    ScanMissLine(NumberedItem, t);
    DefinitionRuleHit(term, ws, x);
    BlockStages(t, t, t, t, t, t, DefinitionMarkup(term, x));
  }

  // ---- Inline spans ----

  /** A fenced region without backticks inside becomes a code block around its text. */
  lemma FenceSpan(x: string, b: string, p: Option<char>)
    requires '`' !in x
    ensures Scan(CodeFence, "```" + x + "```" + b, p) == FenceMarkup(x) + Scan(CodeFence, b, Some('`'))
  {
    var t := "```" + x + "```" + b;
    DelimitedIs("```", x, "```", b, false, FenceMarkup);
    FenceMatch(t, p);
    ScanHit(CodeFence, t, p, Hit(|x| + 6, FenceMarkup(x)));
    assert t[|x| + 5] == '`';
  }


  /** `**x**` on one line becomes a bold span around `x`. */
  lemma BoldSpan(x: string, b: string, p: Option<char>)
    requires '*' !in x && NoLineBreak(x)
    ensures Scan(Bold, "**" + x + "**" + b, p) == BoldMarkup(x) + Scan(Bold, b, Some('*'))
  {
    var t := "**" + x + "**" + b;
    DelimitedIs("**", x, "**", b, true, BoldMarkup);
    BoldMatch(t, p);
    ScanHit(Bold, t, p, Hit(|x| + 4, BoldMarkup(x)));
    assert t[|x| + 3] == '*';
  }


  lemma ItalicAtWhole(x: string)
    requires x != [] && !IsSpace(x[0]) && '*' !in x && NoLineBreak(x)
    ensures ItalicAt("*" + x + "*", None) == Some(Hit(|x| + 2, ItalicMarkup(x)))
  {
    var t := "*" + x + "*";
    var j := |x| + 1;
    assert t[0] == '*' && t[1] == x[0];
    assert t[2..j] == x[1..];
    assert NoLineBreak(t[2..j]) by {
      forall m | 0 <= m < j - 2 ensures !IsLineTerminator(t[2..j][m]) { assert t[2..j][m] == x[m + 1]; }
    }
    forall m | 2 <= m < j ensures t[m] != '*' { assert t[m] == x[m - 1]; }
    ItalicEndIs(t, 2, j);
    assert t[1..j] == x;
    assert t[..0] + ItalicMarkup(x) == ItalicMarkup(x);
  }

  /** `*x*` as the whole text, with `x` not starting with whitespace, becomes an italic span. */
  lemma ItalicSpan(x: string)
    requires x != [] && !IsSpace(x[0]) && '*' !in x && NoLineBreak(x)
    ensures ReplaceAll(Italic, "*" + x + "*") == ItalicMarkup(x)
  {
    var t := "*" + x + "*";
    ItalicAtWhole(x);
    ItalicMatch(t);
    ScanWhole(Italic, t, ItalicMarkup(x));
  }

  /** `` `x` `` with a non-empty `x` free of backticks becomes an inline code span. */
  lemma InlineCodeSpan(x: string)
    requires x != [] && '`' !in x
    ensures ReplaceAll(InlineCode, "`" + x + "`") == CodeMarkup(x)
  {
    var t := "`" + x + "`";
    var k := 1 + |x|;
    forall m | 1 <= m < k ensures !At(t, m, "`") { assert t[m] == x[m - 1]; }
    FindIs(t, "`", 1, k, false);
    assert t[1..k] == x;
    assert InlineCodeAt(t) == Some(Hit(|t|, CodeMarkup(x)));
    InlineCodeMatch(t);
    ScanWhole(InlineCode, t, CodeMarkup(x));
  }

  /** `\(x\)` on one line becomes an inline formula, which the later bracket rule leaves alone
      when `x` has no bracket. */
  lemma InlineFormulaOnce(x: string)
    requires '\\' !in x && '[' !in x && NoLineBreak(x)
    ensures ReplaceAll(FormulaInline, "\\(" + x + "\\)") == FormulaInlineMarkup(x)
    ensures ReplaceAll(BracketFormula, FormulaInlineMarkup(x)) == FormulaInlineMarkup(x)
  {
    InlineFormulaMatch(x);
    ScanWhole(FormulaInline, "\\(" + x + "\\)", FormulaInlineMarkup(x));
    FormulaMarkupKeepsOut(x);
  }

  lemma InlineFormulaMatch(x: string)
    requires '\\' !in x && NoLineBreak(x)
    ensures Match(FormulaInline, "\\(" + x + "\\)", None) ==
            Some(Hit(|"\\(" + x + "\\)"|, FormulaInlineMarkup(x)))
  {
    var t := "\\(" + x + "\\)";
    DelimitedIs("\\(", x, "\\)", [], true, FormulaInlineMarkup);
    assert t + [] == t;
    FormulaInlineMatch(t);
  }

  lemma FormulaMarkupKeepsOut(x: string)
    requires '[' !in x
    ensures ReplaceAll(BracketFormula, FormulaInlineMarkup(x)) == FormulaInlineMarkup(x)
  {
    assert '[' !in FormulaInlineOpen && '[' !in SpanClose;
    ScanWithoutKey(BracketFormula, FormulaInlineMarkup(x), None);
  }



  // ---- Facts about the clean-up stages ----

  /** A one-character rule whose replacement lacks the character removes every copy of it. */
  lemma {:induction false} LiteralRemoved(c: char, rep: string, t: string, p: Option<char>)
    requires c !in rep
    ensures c !in Scan(Literal(c, rep), t, p)
    decreases |t|
  {
    if t != [] {
      LiteralRemoved(c, rep, t[1..], Some(t[0]));
    }
  }

  /** Shrinking runs of breaks adds no character that is not in a break. */
  lemma {:induction false} CollapseKeepsOut(c: char, t: string)
    requires c !in t && c !in Break
    ensures c !in Collapse(t)
    decreases |t|
  {
    if t != [] {
      var k := if BreakCount(t) >= 3 then 5 * BreakCount(t) else 1;
      assert forall d | d in t[k..] :: d in t;
      CollapseKeepsOut(c, t[k..]);
    }
  }

  lemma MatchBreakRun(t: string, p: Option<char>)
    ensures Match(BreakRun, t, p) == BreakRunAt(t)
  {
  }

  /** The break clean-up read directly on the text: each maximal run of three or more breaks
      becomes two, everything else is copied. */
  function Collapse(t: string): string
    decreases |t|
  {
    if t == [] then []
    else
      var n := BreakCount(t);
      if n >= 3 then Break + Break + Collapse(t[5 * n..]) else [t[0]] + Collapse(t[1..])
  }

  lemma CollapseRunStep(t: string, p: Option<char>)
    requires BreakCount(t) >= 3
    ensures Scan(BreakRun, t, p) ==
            Break + Break + Scan(BreakRun, t[5 * BreakCount(t)..], Some(t[5 * BreakCount(t) - 1]))
    ensures Collapse(t) == Break + Break + Collapse(t[5 * BreakCount(t)..])
  {
    MatchBreakRun(t, p);
    ScanHit(BreakRun, t, p, Hit(5 * BreakCount(t), Break + Break));
  }

  lemma CollapsePlainStep(t: string, p: Option<char>)
    requires t != [] && BreakCount(t) < 3
    ensures Scan(BreakRun, t, p) == [t[0]] + Scan(BreakRun, t[1..], Some(t[0]))
    ensures Collapse(t) == [t[0]] + Collapse(t[1..])
  {
    MatchBreakRun(t, p);
    ScanMiss(BreakRun, t, p);
  }

  /** The global replace of `(<br\/>){3,}` is `Collapse`, whatever character precedes. */
  lemma {:induction false} CollapseIsScan(t: string, p: Option<char>)
    ensures Scan(BreakRun, t, p) == Collapse(t)
    decreases |t|
  {
    if t != [] {
      var n := BreakCount(t);
      if n >= 3 {
        CollapseRunStep(t, p);
        CollapseIsScan(t[5 * n..], Some(t[5 * n - 1]));
      } else {
        CollapsePlainStep(t, p);
        CollapseIsScan(t[1..], Some(t[0]));
      }
    }
  }


  /** Clean-up output that starts with text free of `<` copies that text from its input. */
  lemma {:induction false} CollapsePlainPrefix(t: string, w: string)
    requires '<' !in w && w <= Collapse(t)
    ensures w <= t && Collapse(t) == w + Collapse(t[|w|..])
    decreases |w|
  {
    if w != [] {
      assert t != [];
      if BreakCount(t) >= 3 {
        CollapseRunStep(t, None);
        HeadOf(Collapse(t), w, '<');
        assert false;
      }
      CollapsePlainStep(t, None);
      var s1 := Collapse(t[1..]);
      HeadSplit(t[0], s1, w);
      CollapsePlainPrefix(t[1..], w[1..]);
      assert t[1..][|w| - 1..] == t[|w|..];
      PrefixJoin(t, w, s1, Collapse(t[|w|..]));
    }
  }

  /** Two texts that start alike start with the same character. */
  lemma HeadOf(s: string, w: string, c: char)
    requires w != [] && w <= s && s[0] == c
    ensures c in w
  {
    assert w[0] == s[0];
  }

  /** A prefix of `[c] + s1` starts with `c` and continues with a prefix of `s1`. */
  lemma HeadSplit(c: char, s1: string, w: string)
    requires w != [] && w <= [c] + s1
    ensures w[0] == c && w[1..] <= s1
  {
    var s := [c] + s1;
    assert s[1..] == s1;
    assert w[1..] == s[1..|w|];
  }


  lemma PrefixJoin(t: string, w: string, s1: string, rest: string)
    requires t != [] && w != [] && t[0] == w[0]
    requires w[1..] <= t[1..] && s1 == w[1..] + rest
    ensures w <= t && [t[0]] + s1 == w + rest
  {
    assert [w[0]] + w[1..] == w;
    assert t[..|w|] == [t[0]] + t[1..][..|w| - 1];
  }




  /** Where the clean-up leaves the start of its input alone, a break it outputs first is copied
      from the input. */
  lemma CollapseFromPlain(t: string)
    requires t != [] && BreakCount(t) < 3 && Break <= Collapse(t)
    ensures Break <= t
    ensures Collapse(t) == Break + Collapse(t[5..])
  {
    CollapsePlainStep(t, None);
    var s1 := Collapse(t[1..]);
    HeadSplit(t[0], s1, Break);
    assert Break[1..] == "br/>";
    CollapsePlainPrefix(t[1..], "br/>");
    assert t[1..][4..] == t[5..];
    PrefixJoin(t, Break, s1, Collapse(t[5..]));
  }



  /** Clean-up output that starts with a break comes from input that does. */
  lemma CollapseStartsBreak(t: string)
    requires Break <= Collapse(t)
    ensures Break <= t
  {
    assert t != [];
    if BreakCount(t) < 3 { CollapseFromPlain(t); }
  }

  /** A run of three or more breaks starts with two. */
  lemma RunStartsTwoBreaks(t: string)
    requires BreakCount(t) >= 3
    ensures Break + Break <= t
  {
    assert Break <= t;
    assert BreakCount(t) == 1 + BreakCount(t[5..]);
    assert Break <= t[5..];
    assert t[..10] == t[..5] + t[5..][..5];
  }

  /** Clean-up output that starts with two breaks comes from input that does. */
  lemma CollapseStartsTwoBreaks(t: string)
    requires Break + Break <= Collapse(t)
    ensures Break + Break <= t
  {
    assert t != [];
    if BreakCount(t) >= 3 {
      RunStartsTwoBreaks(t);
    } else {
      BreaksSplit(Collapse(t), Break);
      CollapseFromPlain(t);
      DropBreak(Collapse(t[5..]));
      CollapseStartsBreak(t[5..]);
      BreaksJoin(t, Break);
    }
  }

  /** Text that starts with a break followed by `w` starts with a break, and `w` follows it. */
  lemma BreaksSplit(s: string, w: string)
    requires Break + w <= s
    ensures Break <= s && w <= s[5..]
  {
    assert s[..5] == (Break + w)[..5];
    assert s[5..5 + |w|] == (Break + w)[5..];
  }

  lemma BreaksJoin(t: string, w: string)
    requires Break <= t && w <= t[5..]
    ensures Break + w <= t
  {
    assert t[..5 + |w|] == t[..5] + t[5..][..|w|];
  }

  lemma DropBreak(x: string)
    ensures (Break + x)[5..] == x
  {
  }

  /** Three breaks in a row make a run of at least three. */
  lemma ThreeBreaksCount(t: string)
    requires Break <= t && Break + Break <= t[5..]
    ensures BreakCount(t) >= 3
  {
    BreaksSplit(t[5..], Break);
    assert t[5..][5..] == t[10..];
    assert BreakCount(t) == 1 + BreakCount(t[5..]);
    assert BreakCount(t[5..]) == 1 + BreakCount(t[10..]);
  }


  /** Where two breaks are followed by `s2`, three breaks can start at 0 or 5 only if `s2` starts
      with a break. */
  lemma TripleAfterTwo(s: string, s2: string, i: nat)
    requires s == Break + Break + s2 && (i == 0 || i == 5)
    ensures At(s, i, Break + Break + Break) ==> Break <= s2
  {
    if At(s, i, Break + Break + Break) {
      assert s[i..i + 15] == Break + Break + Break;
      assert s[10..15] == Break;
      assert s[10..] == s2;
    }
  }

  /** Two breaks hold a `<` only at 0 and 5. */
  lemma TwoBreaksOpen(i: nat)
    requires i < 10 && i != 0 && i != 5
    ensures (Break + Break)[i] != '<'
  {
    assert Break + Break == "<br/><br/>";
  }

  /** Clean-up output never starts with three breaks where its input has a run. */
  lemma NoTripleStartRun(t: string)
    requires t != [] && BreakCount(t) >= 3
    ensures !(Break + Break + Break <= Collapse(t))
  {
    var s := Collapse(t);
    var n := BreakCount(t);
    var u := t[5 * n..];
    var s2 := Collapse(u);
    TripleAfterTwo(s, s2, 0);
    assert s[0..] == s;
    if Break <= s2 { CollapseStartsBreak(u); }
  }

  /** Clean-up output never starts with three breaks where its input has none to shrink. */
  lemma NoTripleStartPlain(t: string)
    requires t != [] && BreakCount(t) < 3
    ensures !(Break + Break + Break <= Collapse(t))
  {
    var s := Collapse(t);
    if Break + (Break + Break) <= s {
      BreaksSplit(s, Break + Break);
      CollapseFromPlain(t);
      DropBreak(Collapse(t[5..]));
      CollapseStartsTwoBreaks(t[5..]);
      ThreeBreaksCount(t);
      assert false;
    }
    assert Break + Break + Break == Break + (Break + Break);
  }


  /** After the clean-up no three breaks follow each other anywhere. */
  lemma {:induction false} CollapseNoTriple(t: string)
    ensures !HasTripleBreak(Collapse(t))
    decreases |t|
  {
    var triple := Break + Break + Break;
    var s := Collapse(t);
    if t != [] {
      var n := BreakCount(t);
      if n >= 3 {
        var u := t[5 * n..];
        var s2 := Collapse(u);
        CollapseNoTriple(u);
        if Break <= s2 { CollapseStartsBreak(u); }
        forall i | 0 <= i <= |s| ensures !At(s, i, triple) {
          if i >= 10 {
            assert s[i..] == s2[i - 10..];
            assert !At(s2, i - 10, triple);
          } else if i == 0 || i == 5 {
            TripleAfterTwo(s, s2, i);
          } else {
            TwoBreaksOpen(i);
            assert s[i] == (Break + Break)[i];
          }
        }
      } else {
        var s1 := Collapse(t[1..]);
        CollapseNoTriple(t[1..]);
        NoTripleStartPlain(t);
        forall i | 0 <= i <= |s| ensures !At(s, i, triple) {
          if i == 0 {
            assert s[0..] == s;
          } else {
            assert s[i..] == s1[i - 1..];
            assert !At(s1, i - 1, triple);
          }
        }
      }
    }
  }
}
