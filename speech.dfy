/** The clean-up an answer goes through before it is read aloud: markup, hash marks, emoji and
    symbols are taken out, runs of white space become one space, and a space follows every
    comma. */
module Speech {
  import opened Text
  import opened Patterns

  /** A character that may reach the speech engine: no hash mark, no emoji, none of the symbols
      `* - + = | [ ] ( )`, and no white space but the plain space. */
  predicate Speakable(c: char) {
    c != '#' && !IsEmoji(c) && !IsSpeechSymbol(c) && (IsSpace(c) ==> c == ' ')
  }

  /** HTML tags become spaces; bold, italic and code marks are dropped around their text; fenced
      blocks are dropped whole. */
  function StripMarkup(s: string): string {
    var tagless := ReplaceAll(Tag, s);
    var unbold := ReplaceAll(PlainBold, tagless);
    var unitalic := ReplaceAll(PlainItalic, unbold);
    var uncode := ReplaceAll(PlainCode, unitalic);
    ReplaceAll(PlainFence, uncode)
  }

  /** Heading marks with their space, then every remaining hash mark, are dropped. What is left
      is the text without its hash marks and without the spaces that directly follow one. */
  function StripHashes(s: string): (r: string)
    ensures forall c | c in r :: c != '#'
    ensures '#' !in s ==> r == s
    ensures r == Dehashed(s, false)
  {
    var unheaded := ReplaceAll(HashMarks, s);
    NoHashLeft(unheaded);
    HashlessKept(s);
    ScanLiteralEach('#', "", unheaded, None);
    HashStagesEach(s, None, false);
    ReplaceAll(Literal('#', ""), unheaded)
  }

  /** The text read one character at a time: a hash mark is dropped, and so is a space right
      after one; everything else is kept. `afterHash` says the previous character was `#`. */
  function Dehashed(s: string, afterHash: bool): string
    decreases |s|
  {
    if s == [] then []
    else (if s[0] == '#' || (s[0] == ' ' && afterHash) then [] else [s[0]])
         + Dehashed(s[1..], s[0] == '#')
  }

  /** Single spaces only: no white space but the plain space, and never two spaces in a row. */
  predicate SingleSpaced(s: string) {
    && (forall i | 0 <= i < |s| :: IsSpace(s[i]) ==> s[i] == ' ')
    && (forall i | 0 <= i < |s| - 1 :: s[i] == ' ' ==> s[i + 1] != ' ')
  }

  /** What tidying leaves: speakable characters, single spaces, and no space at either end. */
  predicate Tidied(s: string) {
    && (forall c | c in s :: Speakable(c))
    && SingleSpaced(s)
    && (s != [] ==> s[0] != ' ' && s[|s| - 1] != ' ')
  }

  /** Symbols become spaces, runs of white space become one space, and the ends are trimmed:
      what is left is the text's words, joined by single spaces. Text that is tidy already is
      left as it is, so tidying twice changes nothing more. */
  function Tidy(s: string): (r: string)
    requires forall c | c in s :: c != '#' && !IsEmoji(c)
    ensures Tidied(r)
    ensures Tidied(s) ==> r == s
    ensures r == Words(s, Leading)
  {
    var noSymbol := ReplaceAll(Symbol, s);
    NoSymbolLeft(s);
    var spaced := ReplaceAll(Spaces, noSymbol);
    OneSpaceLeft(noSymbol);
    SpacesSingle(noSymbol, None);
    TrimSpeakable(spaced);
    TidyKeepsTidied(s);
    TidyIsWords(s);
    Trim(spaced)
  }

  /** Where a left-to-right reading of a text stands: before its first word, inside a word, or
      after a word with a gap seen since. */
  datatype Gap = Leading | InWord | AfterWord

  /** A character that parts words when the text is read aloud: white space or a symbol. */
  predicate Blank(c: char) {
    IsSpace(c) || IsSpeechSymbol(c)
  }

  /** The words of a text, the runs of characters that are not blank, joined by single spaces. */
  function Words(t: string, g: Gap): string
    decreases |t|
  {
    if t == [] then []
    else if Blank(t[0]) then Words(t[1..], if g == Leading then Leading else AfterWord)
    else (if g == AfterWord then " " else "") + [t[0]] + Words(t[1..], InWord)
  }

  /** Full stops are kept and every comma is followed by a space. */
  function AddPauses(s: string): (r: string)
    requires forall c | c in s :: Speakable(c)
    ensures forall c | c in r :: Speakable(c)
    ensures r == EachChar(',', ", ", s)
  {
    PausesSpeakable(s);
    ScanSameChar('.', s, None);
    ScanLiteralEach(',', ", ", s, None);
    ReplaceAll(Literal(',', ", "), ReplaceAll(Literal('.', "."), s))
  }

  /** Markup, hash marks and emoji taken out. The emoji stage drops exactly the emoji and keeps
      every other character in order. */
  function Unmark(s: string): (r: string)
    ensures forall c | c in r :: c != '#' && !IsEmoji(c)
    ensures r == EachOf(EmojiChar, "", StripHashes(StripMarkup(s)))
  {
    var unhashed := StripHashes(StripMarkup(s));
    NoEmojiLeft(unhashed);
    ScanCharEach(Emoji, unhashed, None);
    ReplaceAll(Emoji, unhashed)
  }

  /** Symbols, spacing and pauses seen to once the markup is gone. */
  function Finish(s: string): (r: string)
    requires forall c | c in s :: c != '#' && !IsEmoji(c)
    ensures forall c | c in r :: Speakable(c)
  {
    AddPauses(Tidy(s))
  }

  /** `cleanTextForSpeech` on a string: the stages in the order the handler applies them. What
      reaches the speech engine holds only speakable characters. */
  function CleanText(s: string): (r: string)
    ensures forall c | c in r :: Speakable(c)
  {
    Finish(Unmark(s))
  }

  /** `cleanTextForSpeech`: nothing to read gives the empty string; any other value is read as
      the string it shows as. */
  function CleanForSpeech(text: Input): (r: string)
    ensures text.Missing? ==> r == ""
    ensures text.Str? ==> r == CleanText(text.s)
    ensures forall c | c in r :: Speakable(c)
  {
    match text
    case Missing => ""
    case Str(s) => CleanText(s)
    case Other(shown) => CleanText(shown)
  }

  // ---- What each stage leaves out ----

  lemma NoHashLeft(t: string)
    ensures forall x | x in ReplaceAll(Literal('#', ""), t) :: x != '#'
  {
    ScanOnlyKeeps(Literal('#', ""), t, None);
  }

  lemma NoEmojiLeft(t: string)
    requires forall x | x in t :: x != '#'
    ensures forall x | x in ReplaceAll(Emoji, t) :: x != '#' && !IsEmoji(x)
  {
    ScanOnlyKeeps(Emoji, t, None);
  }

  lemma NoSymbolLeft(t: string)
    requires forall x | x in t :: x != '#' && !IsEmoji(x)
    ensures forall x | x in ReplaceAll(Symbol, t) :: x != '#' && !IsEmoji(x) && !IsSpeechSymbol(x)
  {
    ScanOnlyKeeps(Symbol, t, None);
  }

  lemma OneSpaceLeft(t: string)
    requires forall x | x in t :: x != '#' && !IsEmoji(x) && !IsSpeechSymbol(x)
    ensures forall x | x in ReplaceAll(Spaces, t) :: Speakable(x)
  {
    ScanOnlyKeeps(Spaces, t, None);
  }

  /** Trimming speakable, singly spaced text leaves it tidy. */
  lemma TrimSpeakable(t: string)
    requires forall x | x in t :: Speakable(x)
    requires forall i | 0 <= i < |t| - 1 :: t[i] == ' ' ==> t[i + 1] != ' '
    ensures Tidied(Trim(t))
  {
    var r := Trim(t);
    var a: nat, b: nat :| TrimsTo(t, 0, a, b) && r == t[a..b];
    forall i | 0 <= i < |r| ensures r[i] == t[a + i] && Speakable(r[i]) {
      assert t[a + i] in t;
    }
    forall i | 0 <= i < |r| - 1 ensures r[i] == ' ' ==> r[i + 1] != ' ' {
      assert r[i + 1] == t[a + i + 1];
    }
  }

  /** After the white-space rule no two spaces follow each other, and text that starts with
      anything else still starts with it. */
  lemma {:induction false} SpacesSingle(t: string, p: Option<char>)
    ensures forall i | 0 <= i < |Scan(Spaces, t, p)| - 1 ::
      Scan(Spaces, t, p)[i] == ' ' ==> Scan(Spaces, t, p)[i + 1] != ' '
    ensures t != [] && !IsSpace(t[0]) ==> Scan(Spaces, t, p) != [] && Scan(Spaces, t, p)[0] == t[0]
    ensures t == [] ==> Scan(Spaces, t, p) == []
    decreases |t|
  {
    if t != [] {
      ClassMatch(Spaces, t, p);
      var r := Scan(Spaces, t, p);
      if IsSpace(t[0]) {
        var k := Span(t, 0, Space);
        var rest := Scan(Spaces, t[k..], Some(t[k - 1]));
        SpacesSingle(t[k..], Some(t[k - 1]));
        assert r == " " + rest;
        forall i | 0 <= i < |r| - 1 ensures r[i] == ' ' ==> r[i + 1] != ' ' {
          if i == 0 { assert r[1] == rest[0] == t[k]; } else { assert r[i] == rest[i - 1]; }
        }
      } else {
        var rest := Scan(Spaces, t[1..], Some(t[0]));
        SpacesSingle(t[1..], Some(t[0]));
        assert r == [t[0]] + rest;
        forall i | 0 <= i < |r| - 1 ensures r[i] == ' ' ==> r[i + 1] != ' ' {
          if i > 0 { assert r[i] == rest[i - 1] && r[i + 1] == rest[i]; } else { assert r[0] == t[0]; }
        }
      }
    }
  }

  /** Tidy text passes the symbol, white-space and trimming stages unchanged. */
  lemma TidyKeepsTidied(s: string)
    requires forall c | c in s :: c != '#' && !IsEmoji(c)
    ensures Tidied(s) ==> Trim(ReplaceAll(Spaces, ReplaceAll(Symbol, s))) == s
  {
    if Tidied(s) {
      ClassStageKeeps(Symbol, s);
      SingleSpaces(s, None);
      TrimmedAlready(s);
    }
  }

  /** Heading marks and hash marks are only looked for where there is a hash mark. */
  lemma HashlessKept(s: string)
    ensures '#' !in s ==> ReplaceAll(HashMarks, s) == s && ReplaceAll(Literal('#', ""), s) == s
  {
    if '#' !in s {
      KeyStageKeeps(HashMarks, '#', s);
      KeyStageKeeps(Literal('#', ""), '#', s);
    }
  }

  // ---- Tidying gives the words joined by single spaces ----

  lemma TidyIsWords(s: string)
    requires forall c | c in s :: c != '#' && !IsEmoji(c)
    ensures Trim(ReplaceAll(Spaces, ReplaceAll(Symbol, s))) == Words(s, Leading)
  {
    var t := ReplaceAll(Symbol, s);
    NoSymbolLeft(s);
    SymbolWords(s, None, Leading);
    SpacesLeading(t, None);
    var w := Words(t, Leading);
    WordsEnds(t, Leading);
    TrimAround(Lead(t), w, Trail(t));
  }

  /** Symbols turned into spaces part the words just as the symbols did. */
  lemma {:induction false} SymbolWords(t: string, p: Option<char>, g: Gap)
    ensures Words(Scan(Symbol, t, p), g) == Words(t, g)
    decreases |t|
  {
    if t != [] {
      ClassMatch(Symbol, t, p);
      var rest := Scan(Symbol, t[1..], Some(t[0]));
      var g' := if Blank(t[0]) then (if g == Leading then Leading else AfterWord) else InWord;
      SymbolWords(t[1..], Some(t[0]), g');
      if IsSpeechSymbol(t[0]) {
        ScanHit(Symbol, t, p, Match(Symbol, t, p).value);
        WordsCons(' ', rest, g);
      } else {
        ScanMiss(Symbol, t, p);
        WordsCons(t[0], rest, g);
      }
    }
  }

  lemma WordsCons(c: char, x: string, g: Gap)
    ensures Words([c] + x, g) ==
      if Blank(c) then Words(x, if g == Leading then Leading else AfterWord)
      else (if g == AfterWord then " " else "") + [c] + Words(x, InWord)
  {
    assert ([c] + x)[0] == c && ([c] + x)[1..] == x;
  }

  /** A space before the words of a text, when it starts with white space and has a word. */
  function Lead(t: string): string {
    if t != [] && IsSpace(t[0]) && Words(t, Leading) != [] then " " else ""
  }

  /** A space after the words of a text, when it ends with white space. */
  function Trail(t: string): string {
    if t != [] && IsSpace(t[|t| - 1]) then " " else ""
  }

  /** A blank run read inside or before a word. */
  lemma {:induction false} WordsRun(t: string, k: nat, g: Gap)
    requires 0 < k <= |t| && forall m | 0 <= m < k :: Blank(t[m])
    ensures Words(t, g) == Words(t[k..], if g == Leading then Leading else AfterWord)
    decreases k
  {
    var g' := if g == Leading then Leading else AfterWord;
    if k > 1 {
      WordsRun(t[1..], k - 1, g');
      assert t[1..][k - 1..] == t[k..];
    }
  }

  /** With white space alone between words, the white-space rule writes the words with single
      spaces, and one more space for white space at the end. */
  lemma {:induction false} SpacesInWord(t: string, p: Option<char>)
    requires forall c | c in t :: !IsSpeechSymbol(c)
    ensures Scan(Spaces, t, p) == Words(t, InWord) + Trail(t)
    decreases |t|
  {
    if t != [] {
      ClassMatch(Spaces, t, p);
      assert forall c | c in t[1..] :: c in t;
      if IsSpace(t[0]) {
        var k := SpacesRunHit(t, p);
        WordsRun(t, k, InWord);
        if k < |t| {
          SymbolFreeRest(t, k);
          SpacesInWord(t[k..], Some(t[k - 1]));
          RunThenWord(t, k);
        } else {
          assert t[k..] == [];
        }
      } else {
        ScanMiss(Spaces, t, p);
        SpacesInWord(t[1..], Some(t[0]));
        if |t| > 1 { assert t[1..][|t| - 2] == t[|t| - 1]; }
        WordsAppendTrail(t[0], Words(t[1..], InWord), Trail(t[1..]));
      }
    }
  }

  /** The white-space rule on a text that opens with white space replaces the whole run, and
      goes on after it. */
  lemma SpacesRunHit(t: string, p: Option<char>) returns (k: nat)
    requires t != [] && IsSpace(t[0])
    ensures k == Span(t, 0, Space) && 0 < k <= |t|
    ensures forall m | 0 <= m < k :: IsSpace(t[m])
    ensures Scan(Spaces, t, p) == " " + Scan(Spaces, t[k..], Some(t[k - 1]))
  {
    ClassMatch(Spaces, t, p);
    k := Span(t, 0, Space);
    var h := Match(Spaces, t, p).value;
    assert h == Hit(k, " ");
    ScanHit(Spaces, t, p, h);
  }

  lemma SymbolFreeRest(t: string, k: nat)
    requires k < |t| && forall c | c in t :: !IsSpeechSymbol(c)
    ensures !IsSpeechSymbol(t[k]) && forall c | c in t[k..] :: !IsSpeechSymbol(c)
  {
    assert t[k] in t;
    assert forall c | c in t[k..] :: c in t;
  }

  /** A word after a blank run opens with one space, and the text's last character is the
      rest's. */
  lemma RunThenWord(t: string, k: nat)
    requires 0 < k < |t| && IsSpace(t[k - 1]) && !IsSpace(t[k]) && !IsSpeechSymbol(t[k])
    ensures Words(t[k..], AfterWord) == " " + Words(t[k..], InWord)
    ensures Words(t[k..], Leading) == Words(t[k..], InWord) != []
    ensures Trail(t[k..]) == Trail(t)
  {
    WordsOpenAfter(t[k..]);
    assert t[k..][|t[k..]| - 1] == t[|t| - 1];
  }

  /** `SpacesLeading` for a text that opens with white space. */
  lemma SpacesLeadingRun(t: string, p: Option<char>)
    requires t != [] && IsSpace(t[0]) && forall c | c in t :: !IsSpeechSymbol(c)
    ensures Scan(Spaces, t, p) == Lead(t) + Words(t, Leading) + Trail(t)
  {
    var k := SpacesRunHit(t, p);
    WordsRun(t, k, Leading);
    if k < |t| {
      SymbolFreeRest(t, k);
      SpacesInWord(t[k..], Some(t[k - 1]));
      RunThenWord(t, k);
    } else {
      assert t[k..] == [];
    }
  }

  lemma WordsAppendTrail(c: char, w: string, e: string)
    ensures [c] + (w + e) == ("" + [c] + w) + e
  {
  }

  /** After a gap, a text that starts with a word reads as a space and that word. */
  lemma WordsOpenAfter(t: string)
    requires t != [] && !Blank(t[0])
    ensures Words(t, AfterWord) == " " + Words(t, InWord)
    ensures Words(t, Leading) == Words(t, InWord)
  {
  }

  /** The white-space rule on a whole text without symbols writes its words with single spaces,
      one space before them for leading white space and one after for trailing white space. */
  lemma SpacesLeading(t: string, p: Option<char>)
    requires forall c | c in t :: !IsSpeechSymbol(c)
    ensures Scan(Spaces, t, p) == Lead(t) + Words(t, Leading) + Trail(t)
  {
    if t != [] {
      ClassMatch(Spaces, t, p);
      assert forall c | c in t[1..] :: c in t;
      if IsSpace(t[0]) {
        SpacesLeadingRun(t, p);
      } else {
        SpacesInWord(t, p);
        WordsOpenAfter(t);
      }
    }
  }

  /** The words, read from before the first one, neither start nor end with white space. */
  lemma {:induction false} WordsEnds(t: string, g: Gap)
    requires g == Leading
    ensures var w := Words(t, g); w == [] || (!IsSpace(w[0]) && !IsSpace(w[|w| - 1]))
    decreases |t|
  {
    if t != [] {
      if Blank(t[0]) {
        WordsEnds(t[1..], Leading);
      } else {
        WordsLast(t[1..], InWord);
      }
    }
  }

  /** Whatever the reading, the words never end with white space. */
  lemma {:induction false} WordsLast(t: string, g: Gap)
    ensures var w := Words(t, g); w == [] || !IsSpace(w[|w| - 1])
    decreases |t|
  {
    if t != [] {
      var g' := if Blank(t[0]) then (if g == Leading then Leading else AfterWord) else InWord;
      WordsLast(t[1..], g');
    }
  }

  /** Trimming white space from around a text with no white space at its ends gives that text. */
  lemma TrimAround(u: string, w: string, v: string)
    requires forall c | c in u :: IsSpace(c)
    requires forall c | c in v :: IsSpace(c)
    requires w == [] || (!IsSpace(w[0]) && !IsSpace(w[|w| - 1]))
    ensures Trim(u + w + v) == w
  {
    var x := u + w + v;
    if w == [] {
      assert forall i | 0 <= i < |x| :: IsSpace(x[i]) by {
        forall i | 0 <= i < |x| ensures IsSpace(x[i]) {
          if i < |u| { assert x[i] == u[i] && u[i] in u; }
          else { assert x[i] == v[i - |u|] && v[i - |u|] in v; }
        }
      }
    } else {
      var lo, hi := |u|, |u| + |w|;
      assert x[lo] == w[0] && x[hi - 1] == w[|w| - 1];
      assert forall i | 0 <= i < lo :: x[i] == u[i] && u[i] in u;
      assert forall i | hi <= i < |x| :: x[i] == v[i - hi] && v[i - hi] in v;
      TrimAt(x, lo, hi);
      assert x[lo..hi] == w;
    }
  }

  /** Trimming keeps exactly the stretch between the first and the last character that is not
      white space. */
  lemma TrimAt(x: string, lo: nat, hi: nat)
    requires lo < hi <= |x| && !IsSpace(x[lo]) && !IsSpace(x[hi - 1])
    requires forall i | 0 <= i < lo :: IsSpace(x[i])
    requires forall i | hi <= i < |x| :: IsSpace(x[i])
    ensures Trim(x) == x[lo..hi]
  {
    var r := Trim(x);
    var a: nat, b: nat :| TrimsTo(x, 0, a, b) && r == x[a..b];
    assert r != [];
    assert a <= lo && hi <= b;
    assert a == lo && b == hi;
  }

  // ---- The two hash rules, character by character ----

  /** Where the heading rule passed over a hash mark, what follows is neither a space nor a run
      of hash marks ending in a space. */
  predicate NoHeadingMark(t: string) {
    t == [] || (t[0] != ' ' && (t[0] == '#' ==> HashMarksAt(t).None?))
  }

  /** Dropping `#+ ` and then every `#` is the character-by-character reading. */
  lemma {:induction false} HashStagesEach(t: string, p: Option<char>, afterHash: bool)
    requires afterHash ==> NoHeadingMark(t)
    ensures EachChar('#', "", Scan(HashMarks, t, p)) == Dehashed(t, afterHash)
    decreases |t|
  {
    if t != [] {
      assert Match(HashMarks, t, p) == HashMarksAt(t);
      if HashMarksAt(t).Some? {
        var h := HashMarksAt(t).value;
        var k := Span(t, 0, Exactly('#'));
        assert h.len == k + 1 && h.rep == "";
        ScanHit(HashMarks, t, p, h);
        HashStagesEach(t[h.len..], Some(t[h.len - 1]), false);
        DehashedRun(t, k, afterHash);
        assert "" + Scan(HashMarks, t[h.len..], Some(t[h.len - 1]))
            == Scan(HashMarks, t[h.len..], Some(t[h.len - 1]));
      } else {
        ScanMiss(HashMarks, t, p);
        var rest := Scan(HashMarks, t[1..], Some(t[0]));
        if t[0] == '#' { HashMissNext(t); }
        HashStagesEach(t[1..], Some(t[0]), t[0] == '#');
        EachCharAppend('#', "", [t[0]], rest);
        assert EachChar('#', "", [t[0]]) == if t[0] == '#' then [] else [t[0]];
      }
    }
  }

  /** A run of hash marks and the space after it read as nothing. */
  lemma {:induction false} DehashedRun(t: string, k: nat, afterHash: bool)
    requires 1 <= k < |t| && t[k] == ' '
    requires forall m | 0 <= m < k :: t[m] == '#'
    ensures Dehashed(t, afterHash) == Dehashed(t[k + 1..], false)
    decreases k
  {
    assert Dehashed(t, afterHash) == [] + Dehashed(t[1..], true);
    if k == 1 {
      assert Dehashed(t[1..], true) == [] + Dehashed(t[2..], false);
    } else {
      DehashedRun(t[1..], k - 1, true);
      assert t[1..][k..] == t[k + 1..];
    }
  }

  /** Where the heading rule does not match at a hash mark, it does not match right after it
      either, and no space follows. */
  lemma HashMissNext(t: string)
    requires t != [] && t[0] == '#' && HashMarksAt(t).None?
    ensures NoHeadingMark(t[1..])
  {
    var k := Span(t, 0, Exactly('#'));
    var u := t[1..];
    if u != [] && u[0] == '#' {
      forall m | 0 <= m < k - 1 ensures InClass(Exactly('#'), u[m]) {
        assert u[m] == t[m + 1];
      }
      if k - 1 < |u| { assert u[k - 1] == t[k]; }
      SpanIs(u, 0, k - 1, Exactly('#'));
    }
  }

  /** Text without hash marks reads as it is. */
  lemma {:induction false} DehashedPlain(s: string)
    requires '#' !in s
    ensures Dehashed(s, false) == s
    decreases |s|
  {
    if s != [] {
      assert s[0] != '#' && forall c | c in s[1..] :: c in s;
      DehashedPlain(s[1..]);
    }
  }

  lemma PausesSpeakable(t: string)
    requires forall x | x in t :: Speakable(x)
    ensures forall x | x in ReplaceAll(Literal(',', ", "), ReplaceAll(Literal('.', "."), t)) ::
      Speakable(x)
  {
    ScanOnlyKeeps(Literal('.', "."), t, None);
    ScanOnlyKeeps(Literal(',', ", "), ReplaceAll(Literal('.', "."), t), None);
  }

  // ---- Plain prose comes through unchanged ----

  /** Words of letters and digits, separated by single spaces, with full stops. */
  predicate PlainProse(s: string) {
    && (forall i | 0 <= i < |s| :: IsAsciiLetter(s[i]) || IsDigit(s[i]) || s[i] == ' ' || s[i] == '.')
    && (forall i | 0 <= i < |s| - 1 :: s[i] == ' ' ==> s[i + 1] != ' ')
    && (s != [] ==> s[0] != ' ' && s[|s| - 1] != ' ')
  }

  /** Plain prose is read as it is written. */
  lemma CleanKeepsProse(s: string)
    requires PlainProse(s)
    ensures CleanText(s) == s
  {
    UnmarkKeepsProse(s);
    FinishKeepsProse(s);
  }

  /** A heading over plain prose is read as its title: the marks and their space are dropped. */
  lemma CleanHeading(x: string)
    requires PlainProse(x)
    ensures CleanText("## " + x) == x
  {
    var t := "## " + x;
    ProseHasNoMarkup(x);
    assert '<' !in t && '*' !in t && '`' !in t;
    MarkupKeeps(t);
    DehashedRun(t, 2, false);
    assert t[3..] == x;
    DehashedPlain(x);
    CleanAfterMarks(t, x);
  }

  /** Bold plain prose is read as the prose: the marks are dropped. */
  lemma CleanBold(x: string)
    requires PlainProse(x)
    ensures CleanText("**" + x + "**") == x
  {
    var t := "**" + x + "**";
    ProseHasNoMarkup(x);
    assert '<' !in t;
    KeyStageKeeps(Tag, '<', t);
    BoldDropped(x);
    LaterMarkupKeeps(x);
    HashesKeepProse(x);
    CleanAfterMarks(t, x);
  }

  /** The bold rule on one bold span of prose leaves the prose. */
  lemma BoldDropped(x: string)
    requires PlainProse(x)
    ensures ReplaceAll(PlainBold, "**" + x + "**") == x
  {
    var t := "**" + x + "**";
    ProseHasNoMarkup(x);
    assert NoLineBreak(x) by {
      forall i | 0 <= i < |x| ensures !IsLineTerminator(x[i]) {
        assert IsAsciiLetter(x[i]) || IsDigit(x[i]) || x[i] == ' ' || x[i] == '.';
      }
    }
    DelimitedIs("**", x, "**", "", true, body => body);
    assert "**" + x + "**" + "" == t;
    var h := Hit(4 + |x|, x);
    assert Match(PlainBold, t, None) == Some(h);
    ScanHit(PlainBold, t, None, h);
    assert t[h.len..] == [];
  }

  /** Text without markup passes the markup stages unchanged. */
  lemma MarkupKeeps(t: string)
    requires '<' !in t && '*' !in t && '`' !in t
    ensures StripMarkup(t) == t
  {
    KeyStageKeeps(Tag, '<', t);
    KeyStageKeeps(PlainBold, '*', t);
    LaterMarkupKeeps(t);
  }

  /** The italic, code and fence stages keep a text without asterisks and backticks. */
  lemma LaterMarkupKeeps(t: string)
    requires '*' !in t && '`' !in t
    ensures ReplaceAll(PlainFence, ReplaceAll(PlainCode, ReplaceAll(PlainItalic, t))) == t
  {
    KeyStageKeeps(PlainItalic, '*', t);
    KeyStageKeeps(PlainCode, '`', t);
    KeyStageKeeps(PlainFence, '`', t);
  }

  /** Once markup and hash marks leave plain prose, that prose is what is read. */
  lemma CleanAfterMarks(s: string, x: string)
    requires PlainProse(x) && StripHashes(StripMarkup(s)) == x
    ensures CleanText(s) == x
  {
    ProseHasNoEmojiOrSymbol(x);
    ClassStageKeeps(Emoji, x);
    assert Unmark(s) == x;
    FinishKeepsProse(x);
  }

  lemma UnmarkKeepsProse(s: string)
    requires PlainProse(s)
    ensures Unmark(s) == s
  {
    MarkupKeepsProse(s);
    HashesKeepProse(s);
    ProseHasNoEmojiOrSymbol(s);
    ClassStageKeeps(Emoji, s);
  }

  lemma FinishKeepsProse(s: string)
    requires PlainProse(s)
    ensures forall c | c in s :: c != '#' && !IsEmoji(c)
    ensures Finish(s) == s
  {
    TidyKeepsProse(s);
    PausesKeepProse(s);
  }

  lemma MarkupKeepsProse(s: string)
    requires PlainProse(s)
    ensures StripMarkup(s) == s
  {
    ProseHasNoMarkup(s);
    KeyStageKeeps(Tag, '<', s);
    KeyStageKeeps(PlainBold, '*', s);
    KeyStageKeeps(PlainItalic, '*', s);
    KeyStageKeeps(PlainCode, '`', s);
    KeyStageKeeps(PlainFence, '`', s);
  }

  lemma HashesKeepProse(s: string)
    requires PlainProse(s)
    ensures StripHashes(s) == s
  {
    ProseHasNoMarkup(s);
  }

  lemma TidyKeepsProse(s: string)
    requires PlainProse(s)
    ensures forall c | c in s :: c != '#' && !IsEmoji(c)
    ensures Tidy(s) == s
  {
    ProseHasNoMarkup(s);
    ProseHasNoEmojiOrSymbol(s);
    assert Tidied(s);
  }

  lemma PausesKeepProse(s: string)
    requires PlainProse(s)
    ensures forall c | c in s :: Speakable(c)
    ensures AddPauses(s) == s
  {
    ProseHasNoMarkup(s);
    ProseHasNoEmojiOrSymbol(s);
    ScanSameChar('.', s, None);
    KeyStageKeeps(Literal(',', ", "), ',', s);
  }

  /** A stage whose key character the text lacks leaves it unchanged. */
  lemma KeyStageKeeps(r: Rule, c: char, s: string)
    requires Key(r) == Some(c) && c !in s
    ensures ReplaceAll(r, s) == s
  {
    ScanWithoutKey(r, s, None);
  }

  /** A stage for a class of characters the text lacks leaves it unchanged. */
  lemma ClassStageKeeps(r: Rule, s: string)
    requires Removed(r).Some? && forall x | x in s :: !InClass(Removed(r).value, x)
    ensures ReplaceAll(r, s) == s
  {
    ScanOutsideClass(r, s, None);
  }

  lemma ProseHasNoMarkup(s: string)
    requires PlainProse(s)
    ensures '<' !in s && '*' !in s && '`' !in s && '#' !in s && ',' !in s
  {
  }

  lemma ProseHasNoEmojiOrSymbol(s: string)
    requires PlainProse(s)
    ensures forall x | x in s :: !IsEmoji(x) && !IsSpeechSymbol(x)
  {
  }

  /** Single spaces between other characters are each replaced by a space. */
  lemma {:induction false} SingleSpaces(t: string, p: Option<char>)
    requires forall i | 0 <= i < |t| :: IsSpace(t[i]) ==> t[i] == ' '
    requires forall i | 0 <= i < |t| - 1 :: t[i] == ' ' ==> t[i + 1] != ' '
    ensures Scan(Spaces, t, p) == t
    decreases |t|
  {
    if t != [] {
      ClassMatch(Spaces, t, p);
      if IsSpace(t[0]) {
        assert Span(t, 0, Space) == 1 by {
          if |t| > 1 { assert !IsSpace(t[1]); }
        }
      }
      SingleSpaces(t[1..], Some(t[0]));
    }
  }

  /** Text without white space at either end is left as it is by trimming. */
  lemma TrimmedAlready(s: string)
    requires s == [] || (!IsSpace(s[0]) && !IsSpace(s[|s| - 1]))
    ensures Trim(s) == s
  {
    if s != [] {
      assert Span(s, 0, Space) == 0;
      assert s[0..|s|] == s;
    }
  }
}
