/** Character classes and string helpers with the meaning JavaScript gives them. */
module Text {

  datatype Option<+T> = None | Some(value: T)

  /** A JavaScript value handed to a text helper: null or undefined, a string, or another value
      together with what `String` makes of it. */
  datatype Input = Missing | Str(s: string) | Other(shown: string)

  /** JavaScript's LineTerminator set: what `.` refuses to match and where `^`/`$` anchor in
      multiline mode. */
  predicate IsLineTerminator(c: char) {
    c == '\n' || c == '\r' || c == '\U{2028}' || c == '\U{2029}'
  }

  /** The regular-expression class `\s` (WhiteSpace and LineTerminator); also what `trim` removes. */
  predicate IsSpace(c: char) {
    || c == '\t' || c == '\n' || c == '\U{000B}' || c == '\U{000C}' || c == '\r' || c == ' '
    || c == '\U{00A0}' || c == '\U{1680}' || ('\U{2000}' <= c <= '\U{200A}')
    || c == '\U{2028}' || c == '\U{2029}' || c == '\U{202F}' || c == '\U{205F}'
    || c == '\U{3000}' || c == '\U{FEFF}'
  }

  function Min(a: int, b: int): int { if a <= b then a else b }

  predicate IsDigit(c: char) { '0' <= c <= '9' }

  predicate IsAsciiLetter(c: char) { 'A' <= c <= 'Z' || 'a' <= c <= 'z' }

  /** The regular-expression class `\w`. */
  predicate IsWordChar(c: char) { IsDigit(c) || IsAsciiLetter(c) || c == '_' }

  predicate NoLineBreak(s: string) {
    forall i | 0 <= i < |s| :: !IsLineTerminator(s[i])
  }

  predicate AllDigits(s: string) {
    forall i | 0 <= i < |s| :: IsDigit(s[i])
  }

  /** `pat` occurs in `t` at index `k`. */
  predicate At(t: string, k: nat, pat: string) {
    k <= |t| && pat <= t[k..]
  }

  /** `String.prototype.includes`. */
  predicate Contains(s: string, sub: string) {
    exists k | 0 <= k <= |s| :: At(s, k, sub)
  }

  /** Character classes that the patterns scan runs of. */
  datatype Class =
    | Space                // \s
    | Digit                // \d
    | TermChar             // [^:\n]
    | FormulaChar          // [\d\w\s+\-*/=^().,]
    | OnLine               // . (anything but a line terminator)
    | Exactly(c: char)     // one fixed character
    | EmojiChar            // the emoji ranges removed before speaking
    | SymbolChar           // [\*\-\+\=\|\[\]\(\)]

  predicate InClass(k: Class, c: char) {
    match k
    case Space => IsSpace(c)
    case Digit => IsDigit(c)
    case TermChar => c != ':' && c != '\n'
    case FormulaChar =>
      IsWordChar(c) || IsSpace(c) || c in {'+', '-', '*', '/', '=', '^', '(', ')', '.', ','}
    case OnLine => !IsLineTerminator(c)
    case Exactly(d) => c == d
    case EmojiChar => IsEmoji(c)
    case SymbolChar => IsSpeechSymbol(c)
  }

  /** The emoji ranges that are removed before speaking (with the `u` flag, whole code points). */
  predicate IsEmoji(c: char) {
    || ('\U{1F600}' <= c <= '\U{1F64F}') || ('\U{1F300}' <= c <= '\U{1F5FF}')
    || ('\U{1F680}' <= c <= '\U{1F6FF}') || ('\U{1F1E0}' <= c <= '\U{1F1FF}')
    || ('\U{2600}' <= c <= '\U{26FF}') || ('\U{2700}' <= c <= '\U{27BF}')
  }

  /** The characters that are turned into spaces before speaking. */
  predicate IsSpeechSymbol(c: char) {
    c in {'*', '-', '+', '=', '|', '[', ']', '(', ')'}
  }


  /** The end of the longest run of characters of class `k` starting at `i` (a greedy `k*`). */
  function Span(t: string, i: nat, k: Class): (j: nat)
    requires i <= |t|
    ensures i <= j <= |t|
    ensures forall m | i <= m < j :: InClass(k, t[m])
    ensures j == |t| || !InClass(k, t[j])
    decreases |t| - i
  {
    if i == |t| || !InClass(k, t[i]) then i else Span(t, i + 1, k)
  }

  /** The end of the line that index `i` is on: the first line terminator at or after `i`,
      or the end of `t`. */
  function LineEnd(t: string, i: nat): (j: nat)
    requires i <= |t|
    ensures i <= j <= |t|
    ensures NoLineBreak(t[i..j])
    ensures j == |t| || IsLineTerminator(t[j])
  {
    var j := Span(t, i, OnLine);
    assert forall m | 0 <= m < j - i :: t[i..j][m] == t[i + m];
    j
  }

  /** The first index `k >= i` at which `pat` occurs (the closing delimiter of a lazy `.*?`);
      with `inLine` the search gives up at the first line terminator, as `.` cannot cross one. */
  function Find(t: string, pat: string, i: nat, inLine: bool): (r: Option<nat>)
    requires i <= |t|
    ensures r.Some? ==> i <= r.value && r.value + |pat| <= |t| && At(t, r.value, pat)
    ensures r.Some? ==> forall m | i <= m < r.value :: !At(t, m, pat)
    ensures r.Some? && inLine ==> NoLineBreak(t[i..r.value])
    ensures r.None? && !inLine ==> forall m | i <= m <= |t| :: !At(t, m, pat)
    ensures r.None? && inLine ==> forall m | i <= m <= LineEnd(t, i) :: !At(t, m, pat)
    decreases |t| - i
  {
    if At(t, i, pat) then Some(i)
    else if i == |t| || (inLine && IsLineTerminator(t[i])) then None
    else
      var r := Find(t, pat, i + 1, inLine);
      assert r.Some? && inLine ==> t[i..r.value] == [t[i]] + t[i + 1..r.value];
      r
  }

  /** `String.prototype.toLowerCase`, on ASCII letters. */
  function LowerChar(c: char): (d: char)
    ensures 'A' <= c <= 'Z' ==> d as int == c as int + 32
    ensures !('A' <= c <= 'Z') ==> d == c
  {
    if 'A' <= c <= 'Z' then (c as int + 32) as char else c
  }

  /** `String.prototype.toUpperCase`, on ASCII letters. */
  function UpperChar(c: char): (d: char)
    ensures 'a' <= c <= 'z' ==> d as int == c as int - 32
    ensures !('a' <= c <= 'z') ==> d == c
  {
    if 'a' <= c <= 'z' then (c as int - 32) as char else c
  }

  function Lower(s: string): (r: string)
    ensures |r| == |s| && forall i | 0 <= i < |s| :: r[i] == LowerChar(s[i])
  {
    seq(|s|, i requires 0 <= i < |s| => LowerChar(s[i]))
  }

  function Upper(s: string): (r: string)
    ensures |r| == |s| && forall i | 0 <= i < |s| :: r[i] == UpperChar(s[i])
  {
    seq(|s|, i requires 0 <= i < |s| => UpperChar(s[i]))
  }

  /** `s[a..b]` is what is left of `s[lo..]` once white space is dropped at both ends: only
      white space comes before it (from `lo` on) and after it, and it starts and ends with
      something else. */
  predicate TrimsTo(s: string, lo: nat, a: nat, b: nat) {
    && lo <= a <= b <= |s|
    && (forall i | lo <= i < a :: IsSpace(s[i]))
    && (forall i | b <= i < |s| :: IsSpace(s[i]))
    && (a < b ==> !IsSpace(s[a]) && !IsSpace(s[b - 1]))
  }

  /** `String.prototype.trim`: drops leading and trailing `\s` characters and nothing else. */
  function Trim(s: string): (r: string)
    ensures r == [] || (!IsSpace(r[0]) && !IsSpace(r[|r| - 1]))
    ensures exists a: nat, b: nat | TrimsTo(s, 0, a, b) :: r == s[a..b]
    ensures r == [] <==> forall i | 0 <= i < |s| :: IsSpace(s[i])
  {
    var a := Span(s, 0, Space);
    var b := TrimEnd(s, a);
    assert TrimsTo(s, 0, a, b);
    s[a..b]
  }

  /** The end of `s` once trailing `\s` characters after `lo` are dropped. */
  function TrimEnd(s: string, lo: nat): (b: nat)
    requires lo <= |s|
    ensures lo <= b <= |s|
    ensures b == lo || !IsSpace(s[b - 1])
    ensures forall m | b <= m < |s| :: IsSpace(s[m])
    decreases |s|
  {
    if |s| == lo || !IsSpace(s[|s| - 1]) then |s|
    else TrimEnd(s[..|s| - 1], lo)
  }

  /** `s.split('\n')`: the pieces between line feeds, in order (never empty). */
  function SplitLines(s: string): (parts: seq<string>)
    ensures |parts| >= 1
    ensures forall i | 0 <= i < |parts| :: '\n' !in parts[i]
    decreases |s|
  {
    var k := Find(s, "\n", 0, false);
    if k.None? then
      assert forall m | 0 <= m < |s| :: s[m] != '\n' by {
        forall m | 0 <= m < |s| ensures s[m] != '\n' { assert !At(s, m, "\n"); }
      }
      [s]
    else
      var i := k.value;
      assert forall m | 0 <= m < i :: s[m] != '\n' by {
        forall m | 0 <= m < i ensures s[m] != '\n' { assert !At(s, m, "\n"); }
      }
      [s[..i]] + SplitLines(s[i + 1..])
  }

  /** `parts.join('\n')`. */
  function JoinLines(parts: seq<string>): string
    requires |parts| >= 1
  {
    if |parts| == 1 then parts[0] else parts[0] + "\n" + JoinLines(parts[1..])
  }

  /** Splitting on line feeds and joining again gives back the text. */
  lemma {:induction false} JoinSplitLines(s: string)
    ensures JoinLines(SplitLines(s)) == s
    decreases |s|
  {
    var k := Find(s, "\n", 0, false);
    if k.Some? {
      var i := k.value;
      assert s[i] == '\n' by { assert At(s, i, "\n"); }
      JoinSplitLines(s[i + 1..]);
      assert s == s[..i] + "\n" + s[i + 1..];
    }
  }

  /** Joining pieces free of line feeds and splitting again gives back the pieces. */
  lemma {:induction false} SplitJoinLines(parts: seq<string>)
    requires |parts| >= 1
    requires forall i | 0 <= i < |parts| :: '\n' !in parts[i]
    ensures SplitLines(JoinLines(parts)) == parts
    decreases |parts|
  {
    var s := JoinLines(parts);
    var p := parts[0];
    if |parts| == 1 {
      forall m | 0 <= m <= |s| ensures !At(s, m, "\n") {
        if m < |s| { assert s[m] in p; }
      }
    } else {
      var rest := JoinLines(parts[1..]);
      assert s == p + "\n" + rest;
      forall m | 0 <= m < |p| ensures !At(s, m, "\n") {
        assert s[m] == p[m];
      }
      assert At(s, |p|, "\n");
      assert Find(s, "\n", 0, false) == Some(|p|);
      assert s[..|p|] == p && s[|p| + 1..] == rest;
      SplitJoinLines(parts[1..]);
    }
  }

  lemma NoLineBreakJoin(a: string, b: string)
    requires NoLineBreak(a) && NoLineBreak(b)
    ensures NoLineBreak(a + b)
  {
    forall i | 0 <= i < |a + b| ensures !IsLineTerminator((a + b)[i]) {
      if i >= |a| { assert (a + b)[i] == b[i - |a|]; }
    }
  }

  /** A run of class `k` from `i` that stops at `j` is the greedy run. */
  lemma {:induction false} SpanIs(t: string, i: nat, j: nat, k: Class)
    requires i <= j <= |t|
    requires forall m | i <= m < j :: InClass(k, t[m])
    requires j == |t| || !InClass(k, t[j])
    ensures Span(t, i, k) == j
    decreases j - i
  {
    if i < j { SpanIs(t, i + 1, j, k); }
  }

  /** The first occurrence of `pat` at or after `i`, found where it is. */
  lemma FindIs(t: string, pat: string, i: nat, k: nat, inLine: bool)
    requires i <= k && At(t, k, pat)
    requires forall m | i <= m < k :: !At(t, m, pat)
    requires inLine ==> NoLineBreak(t[i..k])
    ensures Find(t, pat, i, inLine) == Some(k)
  {
    if inLine {
      forall m | i <= m < k ensures InClass(OnLine, t[m]) {
        assert t[m] == t[i..k][m - i];
      }
      SpanAtLeast(t, i, k, OnLine);
    }
  }

  /** A run of class `k` from `i` to `j` is covered by the greedy run. */
  lemma {:induction false} SpanAtLeast(t: string, i: nat, j: nat, k: Class)
    requires i <= j <= |t|
    requires forall m | i <= m < j :: InClass(k, t[m])
    ensures Span(t, i, k) >= j
    decreases j - i
  {
    if i < j { SpanAtLeast(t, i + 1, j, k); }
  }
}
