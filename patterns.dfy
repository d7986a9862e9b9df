/** The regular expressions the application rewrites text with, and the global replace that
    applies them.

    `Match(r, t, prev)` says what pattern `r` matches when the regular-expression engine tries it
    at the start of the remaining text `t`; `prev` is the character before `t` (None at the start
    of the string), which is all that `^` ever looks at. `Scan` is `String.prototype.replace` with
    the `g` flag: try the pattern at each position in turn; on a match emit the replacement and go
    on after the match, otherwise copy one character. No pattern here matches the empty string. */
module Patterns {
  import opened Text

  /** A match: how many characters it consumes and what replaces them. */
  datatype Hit = Hit(len: nat, rep: string)

  datatype Rule =
    // FormattedText.jsx
    | Literal(c: char, rep: string)        // /c/g -> rep
    | CodeFence                            // /```([\s\S]*?)```/gs
    | Heading(marks: string, tag: string)  // /^###\s+(.*)$/gm and its two siblings
    | Divider                              // /^---$/gm
    | BulletItem                           // /^[-*•]\s+(.*)$/gm
    | NumberedItem                         // /^(\d+)\.\s+(.*)$/gm
    | DefinitionItem                       // /^\s*([A-Za-z][^:\n]*?):\s+(.*)$/gm
    | Bold                                 // /\*\*(.*?)\*\*/g
    | AltBold                              // /__([^_]+?)__/g
    | Italic                               // /(^|[\s(])\*(?!\s)(.+?)\*(?=[,\s).!?]|$)/g
    | InlineCode                           // /`([^`]+)`/g
    | LargeText                            // /\^\^(.+?)\^\^/g
    | FormulaBlock                         // /\\\[(.*?)\\\]/gs
    | FormulaInline                        // /\\\((.*?)\\\)/g
    | BracketFormula                       // /\[([\d\w\s+\-*/=^().,]+)\]/g
    | BlankLines                           // /\n\n+/g
    | BreakRun                             // /(<br\/>){3,}/g
    // cleanTextForSpeech in App.jsx
    | Tag                                  // /<[^>]*>/g -> ' '
    | PlainBold                            // /\*\*(.*?)\*\*/g -> '$1'
    | PlainItalic                          // /\*(.*?)\*/g -> '$1'
    | PlainCode                            // /`(.*?)`/g -> '$1'
    | PlainFence                           // /```[\s\S]*?```/g -> ''
    | HashMarks                            // /#+ /g -> ''
    | Emoji                                // the six emoji code-point ranges -> ''
    | Symbol                               // /[\*\-\+\=\|\[\]\(\)]/g -> ' '
    | Spaces                               // /\s+/g -> ' '

  // ---- The markup the formatter writes, in short pieces ----

  const FenceOpen := "<pre class=\"code-block\"><code>"
  const FenceClose := "</code></pre>"
  const HeadingClass := " class=\"section-header\">"
  const DividerMarkup := "<hr class=\"divider\" />"
  const BulletItemOpen := "<div class=\"bullet-item\">"
  const BulletMark := "<span class=\"bullet\">•</span>"
  const ContentOpen := "<span class=\"content\">"
  const NumberedItemOpen := "<div class=\"numbered-item\">"
  const NumberOpen := "<span class=\"number\">"
  const DefinitionItemOpen := "<div class=\"definition-item\">"
  const TermOpen := "<strong class=\"definition-term\">"
  const TermClose := ":</strong> "
  const DefinitionOpen := "<span class=\"definition-content\">"
  const BoldOpen := "<strong class=\"highlight-text theme-bold\">"
  const AltBoldOpen := "<strong class=\"highlight-bg\">"
  const StrongClose := "</strong>"
  const ItalicOpen := "<em class=\"tilt-text\">"
  const ItalicClose := "</em>"
  const CodeOpen := "<code class=\"inline-code\">"
  const CodeClose := "</code>"
  const LargeOpen := "<span class=\"large-text\">"
  const FormulaBlockOpen := "<div class=\"formula-block\">"
  const FormulaInlineOpen := "<span class=\"formula-inline\">"
  const SpanClose := "</span>"
  const DivClose := "</div>"
  const Break := "<br/>"

  function FenceMarkup(x: string): string { FenceOpen + x + FenceClose }

  function HeadingMarkup(tag: string, x: string): string {
    "<" + tag + HeadingClass + x + "</" + tag + ">"
  }

  function BulletMarkup(x: string): string {
    BulletItemOpen + BulletMark + ContentOpen + x + SpanClose + DivClose
  }

  function NumberedMarkup(n: string, x: string): string {
    NumberedItemOpen + NumberOpen + n + "." + SpanClose + ContentOpen + x + SpanClose + DivClose
  }

  function DefinitionMarkup(term: string, x: string): string {
    DefinitionItemOpen + TermOpen + term + TermClose + DefinitionOpen + x + SpanClose + DivClose
  }

  function BoldMarkup(x: string): string { BoldOpen + x + StrongClose }
  function AltBoldMarkup(x: string): string { AltBoldOpen + x + StrongClose }
  function ItalicMarkup(x: string): string { ItalicOpen + x + ItalicClose }
  function CodeMarkup(x: string): string { CodeOpen + x + CodeClose }
  function LargeMarkup(x: string): string { LargeOpen + x + SpanClose }
  function FormulaBlockMarkup(x: string): string { FormulaBlockOpen + x + DivClose }
  function FormulaInlineMarkup(x: string): string { FormulaInlineOpen + x + SpanClose }

  // ---- Matching ----

  /** `^` in multiline mode: at the start of the string or right after a line terminator. */
  predicate LineStart(prev: Option<char>) {
    prev.None? || IsLineTerminator(prev.value)
  }

  /** The rules whose pattern starts with a multiline `^`. */
  predicate Anchored(r: Rule) {
    r.Heading? || r.Divider? || r.BulletItem? || r.NumberedItem? || r.DefinitionItem?
  }

  /** A character that every match of the rule contains, when there is one. */
  function Key(r: Rule): Option<char> {
    match r
    case Literal(c, _) => Some(c)
    case CodeFence => Some('`')
    case Heading(marks, _) => if marks == [] then None else Some(marks[0])
    case Divider => Some('-')
    case Bold => Some('*')
    case AltBold => Some('_')
    case Italic => Some('*')
    case InlineCode => Some('`')
    case LargeText => Some('^')
    case FormulaBlock => Some('\\')
    case FormulaInline => Some('\\')
    case BracketFormula => Some('[')
    case BlankLines => Some('\n')
    case BreakRun => Some('<')
    case Tag => Some('<')
    case PlainBold => Some('*')
    case PlainItalic => Some('*')
    case PlainCode => Some('`')
    case PlainFence => Some('`')
    case HashMarks => Some('#')
    case _ => None
  }

  /** How many copies of `<br/>` `t` starts with. */
  function BreakCount(t: string): (n: nat)
    ensures 5 * n <= |t|
    ensures !At(t, 5 * n, Break)
    ensures n > 0 ==> At(t, 0, Break)
    decreases |t|
  {
    if Break <= t then
      var n := 1 + BreakCount(t[5..]);
      assert t[5..][5 * (n - 1)..] == t[5 * n..];
      n
    else 0
  }

  /** What may follow the closing `*` of an italic span: `(?=[,\s).!?]|$)`. */
  predicate ItalicFollow(t: string, j: nat) {
    j >= |t| || IsSpace(t[j]) || t[j] in {',', ')', '.', '!', '?'}
  }

  /** The lazy `(.+?)\*(?=...)` of the italic rule: the first `*` at or after `k` that is followed
      by an allowed character, without crossing a line terminator. */
  function ItalicEnd(t: string, k: nat): (r: Option<nat>)
    requires k <= |t|
    ensures r.Some? ==> k <= r.value < |t| && t[r.value] == '*' && ItalicFollow(t, r.value + 1)
    ensures r.Some? ==> NoLineBreak(t[k..r.value])
    ensures r.Some? ==> forall m | k <= m < r.value :: !(t[m] == '*' && ItalicFollow(t, m + 1))
    decreases |t| - k
  {
    if k == |t| || IsLineTerminator(t[k]) then None
    else if t[k] == '*' && ItalicFollow(t, k + 1) then Some(k)
    else
      var r := ItalicEnd(t, k + 1);
      assert r.Some? ==> t[k..r.value] == [t[k]] + t[k + 1..r.value];
      r
  }

  /** The italic close found where it is. */
  lemma {:induction false} ItalicEndIs(t: string, k: nat, j: nat)
    requires k <= j < |t| && t[j] == '*' && ItalicFollow(t, j + 1)
    requires NoLineBreak(t[k..j])
    requires forall m | k <= m < j :: !(t[m] == '*' && ItalicFollow(t, m + 1))
    ensures ItalicEnd(t, k) == Some(j)
    decreases j - k
  {
    if k < j {
      assert t[k] == t[k..j][0];
      assert t[k + 1..j] == t[k..j][1..];
      ItalicEndIs(t, k + 1, j);
    }
  }

  /** The captured text `t[lo..hi]` of a pattern. */
  datatype Capture = Capture(lo: nat, hi: nat)

  /** A line-anchored rule of the form `^<lead>\s+(.*)$`: `lead` characters already checked,
      then a greedy run of at least one `\s` (which may cross line breaks), then the rest of
      that line. Gives the start and the end of the captured text. */
  function RestOfLine(t: string, lead: nat): (r: Option<Capture>)
    requires lead <= |t|
    ensures r.Some? ==> lead < r.value.lo <= r.value.hi <= |t|
  {
    if lead == |t| || !IsSpace(t[lead]) then None
    else
      var w := Span(t, lead, Space);
      Some(Capture(w, LineEnd(t, w)))
  }

  function HeadingAt(t: string, marks: string, tag: string): (m: Option<Hit>)
    ensures m.Some? ==> 0 < m.value.len <= |t| && marks <= t
  {
    if !(marks <= t) then None
    else match RestOfLine(t, |marks|)
      case None => None
      case Some(Capture(w, e)) => Some(Hit(e, HeadingMarkup(tag, t[w..e])))
  }

  function BulletAt(t: string): (m: Option<Hit>)
    ensures m.Some? ==> 0 < m.value.len <= |t|
  {
    if t == [] || t[0] !in {'-', '*', '•'} then None
    else match RestOfLine(t, 1)
      case None => None
      case Some(Capture(w, e)) => Some(Hit(e, BulletMarkup(t[w..e])))
  }

  function NumberedAt(t: string): (m: Option<Hit>)
    ensures m.Some? ==> 0 < m.value.len <= |t|
  {
    var d := Span(t, 0, Digit);
    if d == 0 || d == |t| || t[d] != '.' then None
    else match RestOfLine(t, d + 1)
      case None => None
      case Some(Capture(w, e)) => Some(Hit(e, NumberedMarkup(t[..d], t[w..e])))
  }

  function DefinitionAt(t: string): (m: Option<Hit>)
    ensures m.Some? ==> 0 < m.value.len <= |t|
  {
    var a := Span(t, 0, Space);
    if a == |t| || !IsAsciiLetter(t[a]) then None else DefinitionFrom(t, a)
  }

  /** The definition rule once the leading `\s*` has ended at a letter at index `a`. */
  function DefinitionFrom(t: string, a: nat): (m: Option<Hit>)
    requires a < |t|
    ensures m.Some? ==> 0 < m.value.len <= |t|
  {
    // the lazy [^:\n]*? can only stop at the first ':' or '\n'
    var c := Span(t, a + 1, TermChar);
    if c == |t| || t[c] != ':' then None else DefinitionBody(t, a, c)
  }

  /** The definition rule once the term `t[a..c]` has ended at a colon. */
  function DefinitionBody(t: string, a: nat, c: nat): (m: Option<Hit>)
    requires a < c < |t|
    ensures m.Some? ==> 0 < m.value.len <= |t|
  {
    match RestOfLine(t, c + 1)
    case None => None
    case Some(Capture(w, e)) => Some(Hit(e, DefinitionMarkup(t[a..c], t[w..e])))
  }

  function ItalicAt(t: string, prev: Option<char>): (m: Option<Hit>)
    ensures m.Some? ==> 0 < m.value.len <= |t| && '*' in t
  {
    // where the opening `*` is: right at the start of the string (the `^` alternative), or
    // after one whitespace or '(' character (the `[\s(]` alternative); |t| when neither applies
    var q := if prev.None? && t != [] && t[0] == '*' then 0
             else if |t| > 1 && (IsSpace(t[0]) || t[0] == '(') && t[1] == '*' then 1
             else |t|;
    if q + 1 >= |t| || IsSpace(t[q + 1]) then None
    else match ItalicEnd(t, q + 2)
      case None => None
      case Some(k) => Some(Hit(k + 1, t[..q] + ItalicMarkup(t[q + 1..k])))
  }

  /** A delimited span `open(.*?)close` (or `open(.+?)close` when `nonEmpty`) whose body is
      replaced by `wrap(body)`: the body is lazy, so it ends at the first `close` that leaves it
      long enough; with `inLine` it may not contain a line terminator (the `.` of the pattern). */
  function Delimited(t: string, open: string, close: string, inLine: bool, nonEmpty: bool,
                     wrap: string -> string): (m: Option<Hit>)
    requires open != [] && close != []
    ensures m.Some? ==> 0 < m.value.len <= |t| && open[0] in t
  {
    var from := if nonEmpty then |open| + 1 else |open|;
    if !(open <= t) || from > |t| || (nonEmpty && inLine && IsLineTerminator(t[|open|])) then None
    else match Find(t, close, from, inLine)
      case None => None
      case Some(k) => Some(Hit(k + |close|, wrap(t[|open|..k])))
  }

  function DividerAt(t: string): (m: Option<Hit>)
    ensures m.Some? ==> 0 < m.value.len <= |t| && '-' in t
  {
    if "---" <= t && (|t| == 3 || IsLineTerminator(t[3])) then
      assert t[0] == '-';
      Some(Hit(3, DividerMarkup))
    else None
  }

  /** `__([^_]+?)__`: the body cannot pass an underscore, so it ends at the first '_'. */
  function AltBoldAt(t: string): (m: Option<Hit>)
    ensures m.Some? ==> 0 < m.value.len <= |t| && '_' in t
  {
    if !("__" <= t) then None
    else match Find(t, "_", 2, false)
      case None => None
      case Some(k) =>
        if k > 2 && k + 1 < |t| && t[k + 1] == '_' then Some(Hit(k + 2, AltBoldMarkup(t[2..k])))
        else None
  }

  /** `` `([^`]+)` ``: the body cannot pass a backtick, so it ends at the first one. */
  function InlineCodeAt(t: string): (m: Option<Hit>)
    ensures m.Some? ==> 0 < m.value.len <= |t| && '`' in t
  {
    if t == [] || t[0] != '`' then None
    else match Find(t, "`", 1, false)
      case None => None
      case Some(k) => if k > 1 then Some(Hit(k + 1, CodeMarkup(t[1..k]))) else None
  }

  function BracketFormulaAt(t: string): (m: Option<Hit>)
    ensures m.Some? ==> 0 < m.value.len <= |t| && '[' in t
  {
    if t == [] || t[0] != '[' then None
    else
      var k := Span(t, 1, FormulaChar);
      if k > 1 && k < |t| && t[k] == ']' then Some(Hit(k + 1, FormulaInlineMarkup(t[1..k])))
      else None
  }

  function BlankLinesAt(t: string): (m: Option<Hit>)
    ensures m.Some? ==> 0 < m.value.len <= |t| && '\n' in t
  {
    if "\n\n" <= t then Some(Hit(Span(t, 0, Exactly('\n')), Break + Break)) else None
  }

  function BreakRunAt(t: string): (m: Option<Hit>)
    ensures m.Some? ==> 0 < m.value.len <= |t| && '<' in t
  {
    var n := BreakCount(t);
    if n >= 3 then
      assert t[0] == '<' by { assert At(t, 0, Break); }
      Some(Hit(5 * n, Break + Break))
    else None
  }

  function HashMarksAt(t: string): (m: Option<Hit>)
    ensures m.Some? ==> 0 < m.value.len <= |t| && '#' in t
  {
    if t == [] || t[0] != '#' then None
    else
      var k := Span(t, 0, Exactly('#'));
      if k < |t| && t[k] == ' ' then Some(Hit(k + 1, "")) else None
  }

  /** One character of class `k`, replaced by `rep`. */
  function CharAt(t: string, k: Class, rep: string): (m: Option<Hit>)
    ensures m.Some? ==> m.value.len == 1 <= |t| && InClass(k, t[0])
  {
    if t != [] && InClass(k, t[0]) then Some(Hit(1, rep)) else None
  }

  function Match(r: Rule, t: string, prev: Option<char>): (m: Option<Hit>)
    ensures m.Some? ==> 0 < m.value.len <= |t|
    ensures m.Some? && Anchored(r) ==> LineStart(prev)
  {
    if Anchored(r) && !LineStart(prev) then None
    else match r
      case Literal(c, rep) => CharAt(t, Exactly(c), rep)
      case CodeFence => Delimited(t, "```", "```", false, false, FenceMarkup)
      case Heading(marks, tag) => HeadingAt(t, marks, tag)
      case Divider => DividerAt(t)
      case BulletItem => BulletAt(t)
      case NumberedItem => NumberedAt(t)
      case DefinitionItem => DefinitionAt(t)
      case Bold => Delimited(t, "**", "**", true, false, BoldMarkup)
      case AltBold => AltBoldAt(t)
      case Italic => ItalicAt(t, prev)
      case InlineCode => InlineCodeAt(t)
      case LargeText => Delimited(t, "^^", "^^", true, true, LargeMarkup)
      case FormulaBlock => Delimited(t, "\\[", "\\]", false, false, FormulaBlockMarkup)
      case FormulaInline => Delimited(t, "\\(", "\\)", true, false, FormulaInlineMarkup)
      case BracketFormula => BracketFormulaAt(t)
      case BlankLines => BlankLinesAt(t)
      case BreakRun => BreakRunAt(t)
      case Tag => Delimited(t, "<", ">", false, false, body => " ")
      case PlainBold => Delimited(t, "**", "**", true, false, body => body)
      case PlainItalic => Delimited(t, "*", "*", true, false, body => body)
      case PlainCode => Delimited(t, "`", "`", true, false, body => body)
      case PlainFence => Delimited(t, "```", "```", false, false, body => "")
      case HashMarks => HashMarksAt(t)
      case Emoji => CharAt(t, EmojiChar, "")
      case Symbol => CharAt(t, SymbolChar, " ")
      case Spaces => if t != [] && IsSpace(t[0]) then Some(Hit(Span(t, 0, Space), " ")) else None
  }

  /** `replace` with the `g` flag, from the remaining text `t` on. */
  function Scan(r: Rule, t: string, prev: Option<char>): string
    decreases |t|
  {
    if t == [] then []
    else match Match(r, t, prev)
      case Some(h) => h.rep + Scan(r, t[h.len..], Some(t[h.len - 1]))
      case None => [t[0]] + Scan(r, t[1..], Some(t[0]))
  }

  /** `s.replace(pattern, replacement)` with the `g` flag. */
  function ReplaceAll(r: Rule, s: string): string {
    Scan(r, s, None)
  }

  // ---- Facts about the global replace ----

  /** Every match of a rule with a key character contains it. */
  lemma MatchHasKey(r: Rule, t: string, prev: Option<char>)
    requires Match(r, t, prev).Some? && Key(r).Some?
    ensures Key(r).value in t
  {
    match r
    case Heading(marks, tag) => assert marks <= t && t[0] == marks[0];
    case _ =>
  }

  /** Text without the rule's key character comes through unchanged. */
  lemma {:induction false} ScanWithoutKey(r: Rule, t: string, prev: Option<char>)
    requires Key(r).Some? && Key(r).value !in t
    ensures Scan(r, t, prev) == t
    decreases |t|
  {
    if t != [] {
      if Match(r, t, prev).Some? { MatchHasKey(r, t, prev); }
      assert forall c | c in t[1..] :: c in t;
      ScanWithoutKey(r, t[1..], Some(t[0]));
    }
  }

  /** A line-anchored rule cannot match in the middle of a line. */
  lemma {:induction false} ScanAnchoredMidLine(r: Rule, t: string, c: char)
    requires Anchored(r) && NoLineBreak(t) && !IsLineTerminator(c)
    ensures Scan(r, t, Some(c)) == t
    decreases |t|
  {
    if t != [] {
      assert NoLineBreak(t[1..]);
      ScanAnchoredMidLine(r, t[1..], t[0]);
    }
  }

  /** On a single line, a line-anchored rule rewrites at most the match at its start. */
  lemma ScanAnchoredLine(r: Rule, t: string)
    requires Anchored(r) && NoLineBreak(t)
    ensures Match(r, t, None).None? ==> Scan(r, t, None) == t
    ensures Match(r, t, None).Some? ==>
      var h := Match(r, t, None).value;
      Scan(r, t, None) == h.rep + t[h.len..]
  {
    if t != [] {
      match Match(r, t, None)
      case None =>
        assert NoLineBreak(t[1..]);
        ScanAnchoredMidLine(r, t[1..], t[0]);
      case Some(h) =>
        assert NoLineBreak(t[h.len..]);
        ScanAnchoredMidLine(r, t[h.len..], t[h.len - 1]);
    }
  }

  /** One step of the global replace where the rule matches. */
  lemma ScanHit(r: Rule, t: string, p: Option<char>, h: Hit)
    requires t != [] && Match(r, t, p) == Some(h)
    ensures Scan(r, t, p) == h.rep + Scan(r, t[h.len..], Some(t[h.len - 1]))
  {
  }

  /** One step of the global replace where the rule does not match. */
  lemma ScanMiss(r: Rule, t: string, p: Option<char>)
    requires t != [] && Match(r, t, p).None?
    ensures Scan(r, t, p) == [t[0]] + Scan(r, t[1..], Some(t[0]))
  {
  }

  /** A match that takes the whole text leaves only its replacement. */
  lemma ScanWhole(r: Rule, t: string, y: string)
    requires Match(r, t, None) == Some(Hit(|t|, y))
    ensures Scan(r, t, None) == y
  {
    assert t[|t|..] == [];
  }

  /** A line-anchored rule that does not match at the start of a line leaves it alone. */
  lemma ScanMissLine(r: Rule, t: string)
    requires Anchored(r) && NoLineBreak(t) && Match(r, t, None).None?
    ensures Scan(r, t, None) == t
  {
    ScanAnchoredLine(r, t);
  }

  lemma HeadingMatch(marks: string, tag: string, t: string)
    ensures Match(Heading(marks, tag), t, None) == HeadingAt(t, marks, tag)
  {
  }

  lemma DividerMatch(t: string)
    ensures Match(Divider, t, None) == DividerAt(t)
  {
  }

  lemma BulletMatch(t: string)
    ensures Match(BulletItem, t, None) == BulletAt(t)
  {
  }

  lemma NumberedMatch(t: string)
    ensures Match(NumberedItem, t, None) == NumberedAt(t)
  {
  }

  lemma DefinitionMatch(t: string)
    ensures Match(DefinitionItem, t, None) == DefinitionAt(t)
  {
  }

  lemma ItalicMatch(t: string)
    ensures Match(Italic, t, None) == ItalicAt(t, None)
  {
  }

  lemma InlineCodeMatch(t: string)
    ensures Match(InlineCode, t, None) == InlineCodeAt(t)
  {
  }

  lemma FenceMatch(t: string, p: Option<char>)
    ensures Match(CodeFence, t, p) == Delimited(t, "```", "```", false, false, FenceMarkup)
  {
  }

  lemma BoldMatch(t: string, p: Option<char>)
    ensures Match(Bold, t, p) == Delimited(t, "**", "**", true, false, BoldMarkup)
  {
  }

  /** A delimited span whose body cannot hold the closer's first character ends at the first
      closer. */
  lemma DelimitedIs(open: string, x: string, close: string, b: string, inLine: bool,
                    wrap: string -> string)
    requires open != [] && close != [] && close[0] !in x
    requires inLine ==> NoLineBreak(x)
    ensures Delimited(open + x + close + b, open, close, inLine, false, wrap) ==
            Some(Hit(|open| + |x| + |close|, wrap(x)))
    ensures (open + x + close + b)[|open| + |x| + |close|..] == b
  {
    var t := open + x + close + b;
    var k := |open| + |x|;
    assert t[k..k + |close|] == close;
    forall m | |open| <= m < k ensures !At(t, m, close) {
      assert t[m] == x[m - |open|];
    }
    assert t[|open|..k] == x;
    FindIs(t, close, |open|, k, inLine);
  }

  lemma FormulaInlineMatch(t: string)
    ensures Match(FormulaInline, t, None) ==
            Delimited(t, "\\(", "\\)", true, false, FormulaInlineMarkup)
  {
  }

  /** A single-character rule rewrites the two halves of a text separately. */
  lemma ScanLiteralAppend(c: char, rep: string, a: string, b: string, p: Option<char>, q: Option<char>)
    ensures Scan(Literal(c, rep), a + b, p) == Scan(Literal(c, rep), a, p) + Scan(Literal(c, rep), b, q)
  {
    ScanLiteralEach(c, rep, a + b, p);
    ScanLiteralEach(c, rep, a, p);
    ScanLiteralEach(c, rep, b, q);
    EachCharAppend(c, rep, a, b);
  }

  /** Every `c` replaced by `rep`, character by character. */
  function EachChar(c: char, rep: string, t: string): string {
    if t == [] then [] else (if t[0] == c then rep else [t[0]]) + EachChar(c, rep, t[1..])
  }

  /** The global replace of a single character is the character-by-character replacement. */
  lemma {:induction false} ScanLiteralEach(c: char, rep: string, t: string, p: Option<char>)
    ensures Scan(Literal(c, rep), t, p) == EachChar(c, rep, t)
    decreases |t|
  {
    if t != [] {
      ScanLiteralStep(c, rep, t, p);
      ScanLiteralEach(c, rep, t[1..], Some(t[0]));
    }
  }

  lemma {:induction false} EachCharAppend(c: char, rep: string, a: string, b: string)
    ensures EachChar(c, rep, a + b) == EachChar(c, rep, a) + EachChar(c, rep, b)
    decreases |a|
  {
    if a == [] {
      assert a + b == b;
    } else {
      assert (a + b)[1..] == a[1..] + b;
      EachCharAppend(c, rep, a[1..], b);
    }
  }

  /** A single-character rule rewrites the first character and goes on with the rest. */
  lemma ScanLiteralStep(c: char, rep: string, t: string, p: Option<char>)
    requires t != []
    ensures Scan(Literal(c, rep), t, p)
         == (if t[0] == c then rep else [t[0]]) + Scan(Literal(c, rep), t[1..], Some(t[0]))
  {
    assert Match(Literal(c, rep), t, p) == if t[0] == c then Some(Hit(1, rep)) else None;
  }

  /** A single-character rule on a one-character text. */
  lemma ScanLiteralOne(c: char, rep: string, x: char)
    ensures Scan(Literal(c, rep), [x], None) == if x == c then rep else [x]
  {
    var r := Literal(c, rep);
    var t := [x];
    if x == c {
      assert Scan(r, t, None) == rep + Scan(r, t[1..], Some(x));
    } else {
      assert Scan(r, t, None) == [x] + Scan(r, t[1..], Some(x));
    }
    assert t[1..] == [];
  }

  // ---- Rules that replace single characters or runs of one class ----

  /** The class of characters a rule rewrites one match at a time, for the rules that match a
      single character of a class (or, for `Spaces`, a run of it). */
  function Removed(r: Rule): Option<Class> {
    match r
    case Literal(c, _) => Some(Exactly(c))
    case Emoji => Some(EmojiChar)
    case Symbol => Some(SymbolChar)
    case Spaces => Some(Space)
    case _ => None
  }

  /** The fixed replacement of such a rule. */
  function Replacement(r: Rule): string {
    match r
    case Literal(_, rep) => rep
    case Symbol => " "
    case Spaces => " "
    case _ => ""
  }

  /** Such a rule matches exactly where a character of its class starts, and always writes its
      fixed replacement. */
  lemma ClassMatch(r: Rule, t: string, p: Option<char>)
    requires Removed(r).Some? && t != []
    ensures Match(r, t, p).Some? <==> InClass(Removed(r).value, t[0])
    ensures Match(r, t, p).Some? ==> Match(r, t, p).value.rep == Replacement(r)
  {
  }

  /** Every character of class `k` replaced by `rep`, character by character. */
  function EachOf(k: Class, rep: string, t: string): string {
    if t == [] then [] else (if InClass(k, t[0]) then rep else [t[0]]) + EachOf(k, rep, t[1..])
  }

  /** A rule for one character of a class rewrites the first character and goes on with the
      rest. */
  lemma ScanCharStep(r: Rule, t: string, p: Option<char>)
    requires Removed(r).Some? && !r.Spaces? && t != []
    ensures Scan(r, t, p)
         == (if InClass(Removed(r).value, t[0]) then Replacement(r) else [t[0]])
            + Scan(r, t[1..], Some(t[0]))
  {
    assert Match(r, t, p) == CharAt(t, Removed(r).value, Replacement(r));
  }

  /** The global replace of one character of a class is the character-by-character
      replacement. */
  lemma {:induction false} ScanCharEach(r: Rule, t: string, p: Option<char>)
    requires Removed(r).Some? && !r.Spaces?
    ensures Scan(r, t, p) == EachOf(Removed(r).value, Replacement(r), t)
    decreases |t|
  {
    if t != [] {
      ScanCharStep(r, t, p);
      ScanCharEach(r, t[1..], Some(t[0]));
    }
  }

  /** What such a rule writes is its replacement's characters and the characters of the text
      outside its class. */
  lemma {:induction false} ScanOnlyKeeps(r: Rule, t: string, p: Option<char>)
    requires Removed(r).Some?
    ensures forall x | x in Scan(r, t, p) ::
      x in Replacement(r) || (x in t && !InClass(Removed(r).value, x))
    decreases |t|
  {
    if t != [] {
      ClassMatch(r, t, p);
      match Match(r, t, p)
      case Some(h) =>
        ScanOnlyKeeps(r, t[h.len..], Some(t[h.len - 1]));
        assert forall x | x in t[h.len..] :: x in t;
      case None =>
        ScanOnlyKeeps(r, t[1..], Some(t[0]));
        assert forall x | x in t[1..] :: x in t;
    }
  }

  /** Text with no character of the rule's class comes through unchanged. */
  lemma {:induction false} ScanOutsideClass(r: Rule, t: string, p: Option<char>)
    requires Removed(r).Some?
    requires forall x | x in t :: !InClass(Removed(r).value, x)
    ensures Scan(r, t, p) == t
    decreases |t|
  {
    if t != [] {
      ClassMatch(r, t, p);
      assert forall x | x in t[1..] :: x in t;
      ScanOutsideClass(r, t[1..], Some(t[0]));
    }
  }

  /** A rule replacing a character by itself changes nothing. */
  lemma ScanSameChar(c: char, t: string, p: Option<char>)
    ensures Scan(Literal(c, [c]), t, p) == t
  {
    ScanLiteralEach(c, [c], t, p);
    EachSameChar(c, t);
  }

  lemma {:induction false} EachSameChar(c: char, t: string)
    ensures EachChar(c, [c], t) == t
    decreases |t|
  {
    if t != [] {
      EachSameChar(c, t[1..]);
      assert [t[0]] + t[1..] == t;
    }
  }
}
