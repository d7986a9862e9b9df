/** How the block stages of `formattedHtml` treat a text line by line.

    Every block rule is anchored with a multiline `^`, and its `\s+` may run over a line break.
    A line that does not end in whitespace or a colon, and is more than a bare marker, keeps
    every block rule inside it: such a line is rewritten exactly as it would be on its own.
    A bare marker line such as `###` does take the next line with it. */
module BlockLines {
  import opened Text
  import opened Patterns
  import opened Formatter

  // ---- Lines a block rule cannot see past ----

  /** A line that is only a heading or list marker. */
  predicate BareMarker(a: string) {
    || (0 < |a| <= 3 && forall i | 0 <= i < |a| :: a[i] == '#')
    || (|a| == 1 && a[0] in {'-', '*', '•'})
    || (|a| >= 2 && a[|a| - 1] == '.' && AllDigits(a[..|a| - 1]))
  }

  /** A line whose block rules stop at its end: no line break inside, a last character that is
      neither whitespace nor a colon, and more than a bare marker. */
  predicate Closed(a: string) {
    && NoLineBreak(a) && a != []
    && !IsSpace(a[|a| - 1]) && a[|a| - 1] != ':'
    && !BareMarker(a)
  }

  /** The seven rules of the block stages after the code fences, in their order. */
  predicate BlockRule(r: Rule) {
    || r == Heading("###", "h3") || r == Heading("##", "h2") || r == Heading("#", "h4")
    || r == Divider || r == BulletItem || r == NumberedItem || r == DefinitionItem
  }

  /** What a block rule writes for a whole line: one tag-delimited line of markup. */
  predicate Markup(m: string) {
    NoLineBreak(m) && m != [] && m[0] == '<' && m[|m| - 1] == '>'
  }

  /** Markup is itself a closed line. */
  lemma MarkupClosed(m: string)
    requires Markup(m)
    ensures Closed(m)
  {
    if |m| >= 2 {
      assert m[0] in m[..|m| - 1];
    }
  }

  // ---- Runs and the rest of a line ----

  /** A run that stops inside `a`, or at a character of `b` outside the class, ends at the same
      place when `b` follows. */
  lemma SpanPrefix(a: string, b: string, lo: nat, k: Class)
    requires lo <= |a|
    requires Span(a, lo, k) < |a| || (b != [] && !InClass(k, b[0]))
    ensures Span(a + b, lo, k) == Span(a, lo, k)
  {
    var t := a + b;
    var j := Span(a, lo, k);
    forall m | lo <= m < j ensures InClass(k, t[m]) {
      assert t[m] == a[m];
    }
    if j < |a| {
      assert t[j] == a[j];
    } else {
      assert t[j] == b[0];
    }
    SpanIs(t, lo, j, k);
  }

  /** On a line that does not end in whitespace, the `\s+(.*)$` of a rule stops on that line
      whatever follows it. */
  lemma RestOfLineStays(a: string, b: string, lead: nat)
    requires NoLineBreak(a) && lead < |a| && !IsSpace(a[|a| - 1])
    ensures RestOfLine(a + "\n" + b, lead) == RestOfLine(a, lead)
  {
    var t := a + "\n" + b;
    assert t == a + ("\n" + b);
    assert t[lead] == a[lead];
    if IsSpace(a[lead]) {
      var w := Span(a, lead, Space);
      assert w < |a| by {
        assert !IsSpace(a[|a| - 1]);
      }
      SpanPrefix(a, "\n" + b, lead, Space);
      SpanPrefix(a, "\n" + b, w, OnLine);
      assert LineEnd(a, w) == |a|;
    }
  }

  // ---- Each block rule on a closed line ----

  lemma HeadingStays(marks: string, tag: string, a: string, b: string)
    requires IsHashes(marks) && Closed(a)
    ensures HeadingAt(a + "\n" + b, marks, tag) == HeadingAt(a, marks, tag)
  {
    var t := a + "\n" + b;
    if |marks| <= |a| {
      assert t[..|marks|] == a[..|marks|];
      if marks <= a {
        HeadingMarksInside(marks, a);
        HeadingBodyStays(marks, tag, a, b);
      }
    } else {
      assert marks[|a|] == '#' && t[|a|] == '\n';
      if |marks| <= |t| {
        assert t[..|marks|][|a|] == '\n';
      }
    }
  }

  /** A closed line is more than its heading marks. */
  lemma HeadingMarksInside(marks: string, a: string)
    requires IsHashes(marks) && Closed(a) && marks <= a
    ensures |marks| < |a|
  {
    assert forall i | 0 <= i < |marks| :: a[i] == marks[i] == '#';
  }

  lemma HeadingBodyStays(marks: string, tag: string, a: string, b: string)
    requires marks <= a && |marks| < |a| && NoLineBreak(a) && !IsSpace(a[|a| - 1])
    ensures HeadingAt(a + "\n" + b, marks, tag) == HeadingAt(a, marks, tag)
  {
    var t := a + "\n" + b;
    assert t[..|marks|] == a[..|marks|];
    RestOfLineStays(a, b, |marks|);
    match RestOfLine(a, |marks|)
    case None =>
    case Some(Capture(w, e)) =>
      assert t[w..e] == a[w..e];
  }

  lemma DividerStays(a: string, b: string)
    requires Closed(a)
    ensures DividerAt(a + "\n" + b) == DividerAt(a)
  {
    var t := a + "\n" + b;
    if |a| >= 3 {
      assert t[..3] == a[..3];
      if |a| > 3 {
        assert t[3] == a[3];
      } else {
        assert t[3] == '\n';
      }
    } else {
      assert t[|a|] == '\n';
      if 3 <= |t| {
        assert t[..3][|a|] == '\n';
      }
    }
  }

  lemma BulletStays(a: string, b: string)
    requires Closed(a)
    ensures BulletAt(a + "\n" + b) == BulletAt(a)
  {
    var t := a + "\n" + b;
    assert t[0] == a[0];
    if a[0] in {'-', '*', '•'} {
      RestOfLineStays(a, b, 1);
      match RestOfLine(a, 1)
      case None =>
      case Some(Capture(w, e)) =>
        assert t[w..e] == a[w..e];
    }
  }

  lemma NumberedStays(a: string, b: string)
    requires Closed(a)
    ensures NumberedAt(a + "\n" + b) == NumberedAt(a)
  {
    var t := a + "\n" + b;
    assert t == a + ("\n" + b);
    SpanPrefix(a, "\n" + b, 0, Digit);
    var d := Span(a, 0, Digit);
    if d < |a| {
      assert t[d] == a[d];
      if 0 < d && a[d] == '.' {
        NumberedDotInside(a, d);
        NumberedBodyStays(a, b, d);
      }
    } else {
      assert t[d] == '\n';
    }
  }

  /** A closed line is more than a number and its dot. */
  lemma NumberedDotInside(a: string, d: nat)
    requires Closed(a) && d == Span(a, 0, Digit) && 0 < d < |a| && a[d] == '.'
    ensures d + 1 < |a|
  {
    assert AllDigits(a[..d]);
  }

  lemma NumberedBodyStays(a: string, b: string, d: nat)
    requires a != [] && NoLineBreak(a) && !IsSpace(a[|a| - 1])
    requires d == Span(a, 0, Digit) == Span(a + "\n" + b, 0, Digit)
    requires 0 < d && d + 1 < |a| && a[d] == '.'
    ensures NumberedAt(a + "\n" + b) == NumberedAt(a)
  {
    var t := a + "\n" + b;
    assert t[d] == a[d];
    RestOfLineStays(a, b, d + 1);
    assert t[..d] == a[..d];
    match RestOfLine(a, d + 1)
    case None =>
    case Some(Capture(w, e)) =>
      assert t[w..e] == a[w..e];
  }

  lemma DefinitionStays(a: string, b: string)
    requires Closed(a)
    ensures DefinitionAt(a + "\n" + b) == DefinitionAt(a)
  {
    var t := a + "\n" + b;
    assert t == a + ("\n" + b);
    var s := Span(a, 0, Space);
    assert s < |a| by {
      assert !IsSpace(a[|a| - 1]);
    }
    SpanPrefix(a, "\n" + b, 0, Space);
    assert t[s] == a[s];
    if IsAsciiLetter(a[s]) {
      DefinitionFromStays(a, b, s);
    }
  }

  /** The term of a definition on a closed line ends on that line. */
  lemma DefinitionFromStays(a: string, b: string, s: nat)
    requires Closed(a) && s < |a|
    ensures DefinitionFrom(a + "\n" + b, s) == DefinitionFrom(a, s)
  {
    var t := a + "\n" + b;
    assert t == a + ("\n" + b);
    var c := Span(a, s + 1, TermChar);
    SpanPrefix(a, "\n" + b, s + 1, TermChar);
    if c < |a| {
      assert t[c] == a[c];
      if a[c] == ':' {
        DefinitionBodyStays(a, b, s, c);
      }
    } else {
      assert t[c] == '\n';
    }
  }

  lemma DefinitionBodyStays(a: string, b: string, s: nat, c: nat)
    requires Closed(a) && s < c < |a| && a[c] == ':'
    ensures DefinitionBody(a + "\n" + b, s, c) == DefinitionBody(a, s, c)
  {
    var t := a + "\n" + b;
    assert c + 1 < |a|;
    RestOfLineStays(a, b, c + 1);
    assert t[s..c] == a[s..c];
    match RestOfLine(a, c + 1)
    case None =>
    case Some(Capture(w, e)) =>
      assert t[w..e] == a[w..e];
  }

  /** A block rule tried at the start of a closed line sees that line only. */
  lemma MatchStays(r: Rule, a: string, b: string)
    requires BlockRule(r) && Closed(a)
    ensures Match(r, a + "\n" + b, None) == Match(r, a, None)
  {
    match r
    case Heading(marks, tag) => HeadingStays(marks, tag, a, b);
    case Divider => DividerStays(a, b);
    case BulletItem => BulletStays(a, b);
    case NumberedItem => NumberedStays(a, b);
    case DefinitionItem => DefinitionStays(a, b);
  }

  // ---- What a block rule writes for a line ----

  lemma HeadingMarkupIs(tag: string, x: string)
    requires NoLineBreak(tag) && NoLineBreak(x)
    ensures Markup(HeadingMarkup(tag, x))
  {
    HeadingMarkupOnLine(tag, x);
    var s := "<" + tag + HeadingClass + x + "</" + tag;
    assert HeadingMarkup(tag, x) == s + ">";
  }

  lemma BulletMarkupIs(x: string)
    requires NoLineBreak(x)
    ensures Markup(BulletMarkup(x))
  {
    BulletMarkupOnLine(x);
    var s := BulletItemOpen + BulletMark + ContentOpen + x + SpanClose;
    assert BulletMarkup(x) == s + DivClose;
  }

  lemma NumberedMarkupIs(n: string, x: string)
    requires NoLineBreak(n) && NoLineBreak(x)
    ensures Markup(NumberedMarkup(n, x))
  {
    NumberedMarkupOnLine(n, x);
    var s := NumberedItemOpen + NumberOpen + n + "." + SpanClose + ContentOpen + x + SpanClose;
    assert NumberedMarkup(n, x) == s + DivClose;
  }

  lemma DefinitionMarkupIs(term: string, x: string)
    requires NoLineBreak(term) && NoLineBreak(x)
    ensures Markup(DefinitionMarkup(term, x))
  {
    DefinitionMarkupOnLine(term, x);
    var s := DefinitionItemOpen + TermOpen + term + TermClose + DefinitionOpen + x + SpanClose;
    assert DefinitionMarkup(term, x) == s + DivClose;
  }

  /** On a single line, the rest of the line runs to its end. */
  lemma RestOfOneLine(a: string, lead: nat)
    requires NoLineBreak(a) && lead <= |a| && RestOfLine(a, lead).Some?
    ensures RestOfLine(a, lead).value.hi == |a|
    ensures NoLineBreak(a[RestOfLine(a, lead).value.lo..|a|])
  {
    var w := RestOfLine(a, lead).value.lo;
    assert NoLineBreak(a[w..LineEnd(a, w)]);
  }

  lemma HeadingTakesLine(marks: string, tag: string, a: string)
    requires NoLineBreak(tag) && NoLineBreak(a) && HeadingAt(a, marks, tag).Some?
    ensures HeadingAt(a, marks, tag).value.len == |a|
    ensures Markup(HeadingAt(a, marks, tag).value.rep)
  {
    RestOfOneLine(a, |marks|);
    var w := RestOfLine(a, |marks|).value.lo;
    HeadingMarkupIs(tag, a[w..|a|]);
  }

  lemma DividerTakesLine(a: string)
    requires NoLineBreak(a) && DividerAt(a).Some?
    ensures DividerAt(a).value.len == |a|
    ensures Markup(DividerAt(a).value.rep)
  {
  }

  lemma BulletTakesLine(a: string)
    requires NoLineBreak(a) && BulletAt(a).Some?
    ensures BulletAt(a).value.len == |a|
    ensures Markup(BulletAt(a).value.rep)
  {
    RestOfOneLine(a, 1);
    var w := RestOfLine(a, 1).value.lo;
    BulletMarkupIs(a[w..|a|]);
  }

  lemma NumberedTakesLine(a: string)
    requires NoLineBreak(a) && NumberedAt(a).Some?
    ensures NumberedAt(a).value.len == |a|
    ensures Markup(NumberedAt(a).value.rep)
  {
    var d := Span(a, 0, Digit);
    assert 0 < d < |a| && a[d] == '.';
    RestOfOneLine(a, d + 1);
    var c := RestOfLine(a, d + 1).value;
    NumberedHitIs(a, d, c);
    assert NoLineBreak(a[..d]);
    NumberedMarkupIs(a[..d], a[c.lo..|a|]);
  }

  lemma NumberedHitIs(a: string, d: nat, c: Capture)
    requires d == Span(a, 0, Digit) && 0 < d < |a| && a[d] == '.'
    requires RestOfLine(a, d + 1) == Some(c) && c.hi == |a|
    ensures NumberedAt(a) == Some(Hit(|a|, NumberedMarkup(a[..d], a[c.lo..|a|])))
  {
  }

  lemma DefinitionTakesLine(a: string)
    requires NoLineBreak(a) && DefinitionAt(a).Some?
    ensures DefinitionAt(a).value.len == |a|
    ensures Markup(DefinitionAt(a).value.rep)
  {
    var s := Span(a, 0, Space);
    var c := Span(a, s + 1, TermChar);
    assert DefinitionAt(a) == DefinitionFrom(a, s);
    assert DefinitionFrom(a, s) == DefinitionBody(a, s, c);
    DefinitionBodyTakesLine(a, s, c);
  }

  lemma DefinitionBodyTakesLine(a: string, s: nat, c: nat)
    requires NoLineBreak(a) && s < c < |a| && DefinitionBody(a, s, c).Some?
    ensures DefinitionBody(a, s, c).value.len == |a|
    ensures Markup(DefinitionBody(a, s, c).value.rep)
  {
    RestOfOneLine(a, c + 1);
    var w := RestOfLine(a, c + 1).value.lo;
    assert NoLineBreak(a[s..c]);
    DefinitionMarkupIs(a[s..c], a[w..|a|]);
  }

  /** A block rule that matches at the start of a line takes the whole line and writes one line
      of markup for it. */
  lemma MatchTakesLine(r: Rule, a: string)
    requires BlockRule(r) && NoLineBreak(a) && Match(r, a, None).Some?
    ensures Match(r, a, None).value.len == |a|
    ensures Markup(Match(r, a, None).value.rep)
  {
    match r
    case Heading(marks, tag) =>
      HeadingMatch(marks, tag, a);
      HeadingTakesLine(marks, tag, a);
    case Divider =>
      DividerMatch(a);
      DividerTakesLine(a);
    case BulletItem =>
      BulletMatch(a);
      BulletTakesLine(a);
    case NumberedItem =>
      NumberedMatch(a);
      NumberedTakesLine(a);
    case DefinitionItem =>
      DefinitionMatch(a);
      DefinitionTakesLine(a);
  }

  // ---- A line rule over several lines ----

  /** After the first character of a line, a line rule copies the line and the line break and
      starts again on the next line. */
  lemma {:induction false} ScanRestOfLine(r: Rule, u: string, b: string, c: char)
    requires Anchored(r) && NoLineBreak(u) && !IsLineTerminator(c)
    ensures Scan(r, u + "\n" + b, Some(c)) == u + "\n" + Scan(r, b, Some('\n'))
    decreases |u|
  {
    if u == [] {
      ScanMidLineStep(r, "\n" + b, c);
      assert u + "\n" + b == "\n" + b && ("\n" + b)[1..] == b;
    } else {
      var t := u + "\n" + b;
      ScanMidLineStep(r, t, c);
      assert t[1..] == u[1..] + "\n" + b && t[0] == u[0];
      ScanRestOfLine(r, u[1..], b, u[0]);
      PrependHeadTwo(u, "\n", Scan(r, b, Some('\n')));
    }
  }

  lemma PrependHeadTwo(a: string, w1: string, w2: string)
    requires a != []
    ensures [a[0]] + (a[1..] + w1 + w2) == a + w1 + w2
  {
  }

  /** In the middle of a line a line rule copies the next character. */
  lemma ScanMidLineStep(r: Rule, t: string, c: char)
    requires Anchored(r) && t != [] && !IsLineTerminator(c)
    ensures Scan(r, t, Some(c)) == [t[0]] + Scan(r, t[1..], Some(t[0]))
  {
    ScanMiss(r, t, Some(c));
  }

  /** A line rule does not care which line terminator, if any, comes before. */
  lemma ScanLineStart(r: Rule, t: string, p: Option<char>)
    requires Anchored(r) && LineStart(p)
    ensures Scan(r, t, p) == ReplaceAll(r, t)
  {
    if t != [] {
      AnchoredMatchAtStart(r, t, p);
      if Match(r, t, None).None? {
        ScanMiss(r, t, p);
        ScanMiss(r, t, None);
      } else {
        var h := Match(r, t, None).value;
        ScanHit(r, t, p, h);
        ScanHit(r, t, None, h);
      }
    }
  }

  lemma AnchoredMatchAtStart(r: Rule, t: string, p: Option<char>)
    requires Anchored(r) && LineStart(p)
    ensures Match(r, t, p) == Match(r, t, None)
  {
    assert !r.Italic?;
  }

  /** Where a line rule sees the same thing at the start of the first line with and without the
      lines after it, it rewrites the first line on its own and the rest separately. */
  lemma ScanLineSplit(r: Rule, a: string, b: string)
    requires Anchored(r) && NoLineBreak(a) && a != []
    requires Match(r, a + "\n" + b, None) == Match(r, a, None)
    ensures ReplaceAll(r, a + "\n" + b) == ReplaceAll(r, a) + "\n" + ReplaceAll(r, b)
  {
    ScanAnchoredLine(r, a);
    ScanLineStart(r, b, Some('\n'));
    if Match(r, a, None).None? {
      ScanSplitMiss(r, a, b);
    } else {
      ScanSplitHit(r, a, b, Match(r, a, None).value);
    }
  }

  lemma ScanSplitMiss(r: Rule, a: string, b: string)
    requires Anchored(r) && NoLineBreak(a) && a != []
    requires Match(r, a + "\n" + b, None).None?
    ensures ReplaceAll(r, a + "\n" + b) == a + "\n" + Scan(r, b, Some('\n'))
  {
    var t := a + "\n" + b;
    var u := a[1..] + "\n" + b;
    var rest := Scan(r, b, Some('\n'));
    ScanMiss(r, t, None);
    assert t[1..] == u && t[0] == a[0];
    ScanRestOfLine(r, a[1..], b, a[0]);
    PrependHeadTwo(a, "\n", rest);
  }

  lemma ScanSplitHit(r: Rule, a: string, b: string, h: Hit)
    requires Anchored(r) && NoLineBreak(a) && a != []
    requires Match(r, a + "\n" + b, None) == Some(h) && h.len <= |a|
    ensures ReplaceAll(r, a + "\n" + b) == h.rep + a[h.len..] + "\n" + Scan(r, b, Some('\n'))
  {
    var t := a + "\n" + b;
    var u := a[h.len..];
    var rest := Scan(r, b, Some('\n'));
    ScanHit(r, t, None, h);
    assert t[h.len..] == u + "\n" + b;
    assert t[h.len - 1] == a[h.len - 1];
    assert NoLineBreak(u) && !IsLineTerminator(a[h.len - 1]);
    ScanRestOfLine(r, u, b, a[h.len - 1]);
    JoinAfter(h.rep, u, rest);
  }

  lemma JoinAfter(x: string, u: string, w: string)
    ensures x + (u + "\n" + w) == x + u + "\n" + w
  {
  }

  /** One block stage on a closed line followed by more text: the line is rewritten on its own,
      and what it becomes is again a closed line. */
  lemma StageLine(r: Rule, a: string, b: string)
    requires BlockRule(r) && Closed(a)
    ensures ReplaceAll(r, a + "\n" + b) == ReplaceAll(r, a) + "\n" + ReplaceAll(r, b)
    ensures Closed(ReplaceAll(r, a))
  {
    MatchStays(r, a, b);
    ScanLineSplit(r, a, b);
    ScanAnchoredLine(r, a);
    if Match(r, a, None).Some? {
      var h := Match(r, a, None).value;
      MatchTakesLine(r, a);
      assert a[h.len..] == [];
      assert h.rep + a[h.len..] == h.rep;
      MarkupClosed(h.rep);
    }
  }

  // ---- The block stages, line by line ----

  /** The three heading stages on a closed line followed by more text. */
  lemma HeadingsLine(a: string, b: string)
    requires Closed(a)
    ensures Headings(a + "\n" + b) == Headings(a) + "\n" + Headings(b)
    ensures Closed(Headings(a))
  {
    var r3, r2, r1 := Heading("###", "h3"), Heading("##", "h2"), Heading("#", "h4");
    StageLine(r3, a, b);
    var a3, b3 := ReplaceAll(r3, a), ReplaceAll(r3, b);
    StageLine(r2, a3, b3);
    var a2, b2 := ReplaceAll(r2, a3), ReplaceAll(r2, b3);
    StageLine(r1, a2, b2);
  }

  /** The three list stages on a closed line followed by more text. */
  lemma ListsLine(a: string, b: string)
    requires Closed(a)
    ensures Lists(a + "\n" + b) == Lists(a) + "\n" + Lists(b)
    ensures Closed(Lists(a))
  {
    StageLine(BulletItem, a, b);
    var a1, b1 := ReplaceAll(BulletItem, a), ReplaceAll(BulletItem, b);
    StageLine(NumberedItem, a1, b1);
    var a2, b2 := ReplaceAll(NumberedItem, a1), ReplaceAll(NumberedItem, b1);
    StageLine(DefinitionItem, a2, b2);
  }

  /** A closed line without "```" goes through the block stages on its own: the text after it
      is formatted as if the line were not there, and the line as if it were alone. */
  lemma BlocksLine(a: string, b: string)
    requires Closed(a) && !Contains(a, "```")
    ensures Blocks(a + "\n" + b) == Blocks(a) + "\n" + Blocks(b)
    ensures Closed(Blocks(a))
  {
    FenceLine(a, b);
    var b0 := ReplaceAll(CodeFence, b);
    HeadingsLine(a, b0);
    var a1, b1 := Headings(a), Headings(b0);
    StageLine(Divider, a1, b1);
    var a2, b2 := ReplaceAll(Divider, a1), ReplaceAll(Divider, b1);
    ListsLine(a2, b2);
  }

  /** Each line through the block stages on its own. */
  function BlocksEach(lines: seq<string>): seq<string> {
    seq(|lines|, i requires 0 <= i < |lines| => Blocks(lines[i]))
  }

  /** Lines joined by line breaks, each but the last closed and without "```", are formatted
      line by line; the last line may hold anything, line breaks included. */
  lemma {:induction false} BlocksLines(lines: seq<string>)
    requires |lines| >= 1
    requires forall i | 0 <= i < |lines| - 1 :: Closed(lines[i]) && !Contains(lines[i], "```")
    ensures Blocks(JoinLines(lines)) == JoinLines(BlocksEach(lines))
    decreases |lines|
  {
    if |lines| > 1 {
      BlocksLine(lines[0], JoinLines(lines[1..]));
      BlocksLines(lines[1..]);
      assert BlocksEach(lines)[1..] == BlocksEach(lines[1..]);
    }
  }

  // ---- Lines in context ----

  /** A marker, a gap and text that ends in neither whitespace nor a colon make a closed line. */
  lemma MarkedLineClosed(m: string, ws: string, x: string)
    requires NoLineBreak(m) && !Contains(m, "```") && Gap(ws) && LineText(x) && x != []
    requires !Contains(x, "```") && !IsSpace(x[|x| - 1]) && x[|x| - 1] != ':'
    ensures Closed(m + ws + x) && !Contains(m + ws + x, "```")
  {
    var a := m + ws + x;
    LineFacts(m, ws, x);
    assert a[|a| - 1] == x[|x| - 1];
    assert IsSpace(a[|m|]) by {
      assert a[|m|] == ws[0];
    }
    assert a[|m|] in a[..|a| - 1];
  }

  /** Three lines joined by line breaks, grouped either way. */
  lemma JoinThree(a: string, b: string, c: string)
    ensures a + "\n" + (b + "\n" + c) == a + "\n" + b + "\n" + c
  {
  }

  /** A heading line between other lines: the lines before and after are formatted as if it
      were not there, and it becomes an h3 heading. */
  lemma HeadingInText(pre: string, ws: string, x: string, post: string)
    requires Closed(pre) && !Contains(pre, "```")
    requires Gap(ws) && LineText(x) && x != [] && !Contains(x, "```")
    requires !IsSpace(x[|x| - 1]) && x[|x| - 1] != ':'
    ensures Blocks(pre + "\n" + ("###" + ws + x) + "\n" + post) ==
            Blocks(pre) + "\n" + HeadingMarkup("h3", x) + "\n" + Blocks(post)
  {
    var line := "###" + ws + x;
    NoBacktickNoFence("###");
    MarkedLineClosed("###", ws, x);
    BlocksLine(line, post);
    BlocksLine(pre, line + "\n" + post);
    Heading3Line(ws, x);
    JoinThree(pre, line, post);
    JoinThree(Blocks(pre), HeadingMarkup("h3", x), Blocks(post));
  }

  /** A `- ` bullet line on its own. */
  lemma DashBullet(x: string)
    requires LineText(x) && !Contains(x, "```")
    ensures Blocks("- " + x) == BulletMarkup(x)
  {
    NoBacktickNoFence("-");
    BulletLine('-', " ", x);
    assert "- " + x == ['-'] + " " + x;
  }

  /** The first of two bullet lines is closed. */
  lemma DashBulletClosed(x: string)
    requires LineText(x) && x != [] && !Contains(x, "```")
    requires !IsSpace(x[|x| - 1]) && x[|x| - 1] != ':'
    ensures Closed("- " + x) && !Contains("- " + x, "```")
  {
    NoBacktickNoFence("-");
    MarkedLineClosed("-", " ", x);
    assert "- " + x == "-" + " " + x;
  }

  /** Two bullet lines in a row become two bullet items. */
  lemma TwoBullets(x: string, y: string)
    requires LineText(x) && x != [] && !Contains(x, "```")
    requires !IsSpace(x[|x| - 1]) && x[|x| - 1] != ':'
    requires LineText(y) && !Contains(y, "```")
    ensures Blocks("- " + x + "\n- " + y) == BulletMarkup(x) + "\n" + BulletMarkup(y)
  {
    DashBulletClosed(x);
    BlocksLine("- " + x, "- " + y);
    DashBullet(x);
    DashBullet(y);
    BulletJoin(x, y);
  }

  lemma BulletJoin(x: string, y: string)
    ensures "- " + x + "\n- " + y == ("- " + x) + "\n" + ("- " + y)
  {
  }

  /** A `###` line with nothing after the marks takes the next line as its title: the `\s+`
      after the marks runs over the line break. */
  lemma BareHeadingTakesNextLine(x: string)
    requires LineText(x) && x != [] && !Contains(x, "```")
    ensures Blocks("###\n" + x) == HeadingMarkup("h3", x)
  {
    var t := "###\n" + x;
    var h := HeadingMarkup("h3", x);
    NoBacktickNoFence("###");
    NoFenceAcross("###", "\n", x);
    assert "###" + "\n" + x == t;
    FenceAlone(t);
    BareHeadingMatch(x);
    HeadingMatch("###", "h3", t);
    ScanWhole(Heading("###", "h3"), t, h);
    HeadingMarkupOnLine("h3", x);
    LaterBlocksSkipTag(h);
    HeadingStages(t, h, h, h);
    BlockStages(t, t, h, h, h, h, h);
  }

  lemma BareHeadingMatch(x: string)
    requires LineText(x) && x != []
    ensures HeadingAt("###\n" + x, "###", "h3") == Some(Hit(4 + |x|, HeadingMarkup("h3", x)))
  {
    var t := "###\n" + x;
    assert t[3] == '\n' && t[4] == x[0];
    SpanIs(t, 3, 4, Space);
    forall m | 4 <= m < |t| ensures InClass(OnLine, t[m]) {
      assert t[m] == x[m - 4];
    }
    SpanIs(t, 4, |t|, OnLine);
    assert t[4..|t|] == x;
  }
}
