# MiniMind answer formatting and helper logic, in Dafny

This project models two parts of the MiniMind learning assistant, a React application that asks
an AI service questions in several Indian languages and answer modes.

1. **The answer formatter.** This is `formattedHtml` in the `FormattedText` component. A value
   (the AI's answer) goes through a fixed chain of regular-expression replaces:
   - the text is escaped;
   - fenced code, headings, dividers and list items become block markup;
   - bold, italic, code, large text and formulas become inline markup;
   - line feeds become `<br/>` tags.

   The model is exact, not line-by-line. Module `Patterns` defines one `Rule` per regular
   expression:
   - `Match(r, t, prev)` is what the engine matches at the start of the remaining text `t`;
     `prev` is the character before it, which is all that a multiline `^` looks at;
   - `Scan` / `ReplaceAll` is `String.prototype.replace` with the `g` flag.

   Module `Formatter` composes the stages in the component's order. Module `BlockLines` shows
   how the block stages treat a text line by line, and module `Pipeline` states what the whole
   of `formattedHtml` gives for plain lines, blank-line runs and bullet lists.

   The block rules are anchored with a multiline `^`, but their `\s+` also matches line feeds.
   So a line that is only a marker (`###`, `-`, `1.`), or that ends in a colon or in white
   space, takes the next line with it: `###` followed by a line `- item` becomes one h3 holding
   `- item`, and `Note:`, a blank line and `Some text` become one definition item. A line that
   ends otherwise, is more than a marker and holds no "```" (a "closed" line without a fence
   mark) is rewritten on its own, exactly as if it were the whole text. A "```" can open a fence
   that runs over line feeds, so a line holding one is not covered.
2. **The helpers inside the main component.** Modules `History`, `Settings`, `Speech`,
   `Voices` and `Topics` cover:
   - the history list: save, pin, delete, the filtered and sorted view, and quick search;
   - switching answer modes on and off;
   - the language tag sent with a question and the locale given to speech recognition;
   - the clean-up of an answer before it is read aloud;
   - the choice of a speech voice;
   - reading related topics off a numbered answer.

   The code that only builds new values is modelled as functions. Two parts assign step by
   step, and each becomes a method proved against a specification function:
   - the recognition-locale if/else chain;
   - the nested loops of the voice search, which return early.

Module `Text` holds the string vocabulary shared by all the modules: character classes, greedy
runs, `indexOf`, `trim`, ASCII case mapping, and splitting and joining lines.

Source paths below are relative to the repository root.

## Model

| member | source | states |
|---|---|---|
| Formatter.Format | src/components/FormattedText.jsx:5-90 | A missing text renders as the empty string. Any rendered answer has no line feed left and never three `<br/>` in a row. Its value is stated by the `Pipeline` lemmas below. |
| Formatter.EscapeIsSafe | src/components/FormattedText.jsx:13-18 | After escaping there is no raw `<`, `>`, `"` or `'`, and every `&` begins one of `&amp;` `&lt;` `&gt;` `&quot;` `&#039;`. |
| Formatter.EscapeIsCharwise | src/components/FormattedText.jsx:13-18 | The five replaces, `&` first, equal escaping each character on its own, so no entity is escaped twice. |
| Formatter.EscapeRoundTrip | src/components/FormattedText.jsx:13-18 | Decoding the five entities gives the original text back: escaping loses nothing. |
| Formatter.EscapeAppend | src/components/FormattedText.jsx:13-18 | Escaping two pieces of text separately and joining them equals escaping the joined text. |
| Formatter.FenceSpan | src/components/FormattedText.jsx:23 | A fence pair around backtick-free `x` becomes `<pre class="code-block"><code>x</code></pre>`, and the replace goes on after it. |
| Formatter.HeadingLines | src/components/FormattedText.jsx:27-44 | After all the block stages, a `###`, `##` or `#` line with a gap and text becomes an h3, h2 or h4 `section-header` holding exactly the text. The text may hold single backticks but no "```". A `###` line is not matched again by `#`. |
| Formatter.BulletLine | src/components/FormattedText.jsx:38-44 | After all the block stages, a line `-`, `*` or `•` with a gap and text becomes a `bullet-item` div whose content span holds the text unchanged. The text may hold single backticks but no "```". The later definition rule does not wrap it again. |
| Formatter.NumberedLine | src/components/FormattedText.jsx:41-44 | After all the block stages, a line `N.` with a gap and text becomes a `numbered-item` div that keeps the digits `N.` and the text. |
| Formatter.DefinitionLine | src/components/FormattedText.jsx:44 | A line `Term:`, a gap and text, with the term starting with a letter, becomes a `definition-item` div with the term and the text. |
| Formatter.DividerLine | src/components/FormattedText.jsx:34 | A text that is the line `---` becomes `<hr class="divider" />` after all the block stages. |
| Formatter.FenceLine | src/components/FormattedText.jsx:23 | A line without "```" is copied by the code-fence rule, which goes on after its line feed as if the text started there. |
| Formatter.LaterBlocksSkipTag | src/components/FormattedText.jsx:27-44 | A line that already starts with a tag passes every later heading, divider and list rule unchanged. |
| BlockLines.MatchTakesLine | src/components/FormattedText.jsx:27-44 | On one line, every block rule that matches takes the whole line and writes one tag-delimited line of markup. |
| BlockLines.MatchStays | src/components/FormattedText.jsx:27-44 | At the start of a closed line, a block rule matches the same with any text after the line as without it. |
| BlockLines.StageLine | src/components/FormattedText.jsx:27-44 | One block stage on a closed line followed by more text rewrites the line on its own and the rest on its own. The rewritten line is closed again. |
| BlockLines.BlocksLine | src/components/FormattedText.jsx:23-44 | All the block stages on a closed line without "```" followed by more text give that line's result, a line feed and the rest's result. |
| BlockLines.BlocksLines | src/components/FormattedText.jsx:23-44 | When every line but the last is closed and holds no "```", the block stages rewrite each line as if it stood alone. |
| BlockLines.HeadingInText | src/components/FormattedText.jsx:27-44 | A `###` heading line between other lines becomes an h3, and the lines before and after are formatted as if it were not there. |
| BlockLines.TwoBullets | src/components/FormattedText.jsx:38 | Two `- ` lines in a row become two bullet items separated by a line feed. |
| BlockLines.BareHeadingTakesNextLine | src/components/FormattedText.jsx:27 | A line that is only `###` takes the next line as its title, because `\s+` runs over the line feed. |
| Pipeline.DefinitionTakesBlankLine | src/components/FormattedText.jsx:44 | A line `Term:`, a blank line and a line of text become one definition item: `\s+` after the colon runs over both line feeds. |
| Pipeline.BlocksClear | src/components/FormattedText.jsx:23-44 | Text whose lines all start with a character that opens no block rule, and which has no colon and no backtick, passes the block stages unchanged. |
| Pipeline.InlinesClear | src/components/FormattedText.jsx:49-70 | Text without `*`, `_`, a backtick, `^`, a backslash, `[` or `:` passes the inline stages unchanged. |
| Pipeline.CollapseKeeps | src/components/FormattedText.jsx:87 | The break clean-up leaves text with no three breaks in a row unchanged. |
| Pipeline.LineBreaksOne | src/components/FormattedText.jsx:75-87 | One line feed between two lines becomes exactly one `<br/>`, and the lines are kept. |
| Pipeline.LineBreaksRun | src/components/FormattedText.jsx:75-87 | A run of two or more line feeds between two lines becomes exactly two `<br/>`, and the lines are kept. |
| Pipeline.FormatPlainLine | src/components/FormattedText.jsx:5-90 | A line with no markdown-like notation comes out as its escaped text and nothing else. |
| Pipeline.FormatLines | src/components/FormattedText.jsx:5-90 | Two such lines with one line feed between give the escaped lines around one `<br/>`. With a run of two or more they give the escaped lines around two `<br/>`. |
| Pipeline.FormatTwoBullets | src/components/FormattedText.jsx:5-90 | Two `- ` lines give two bullet items around the escaped texts, with one `<br/>` between. |
| Pipeline.EscapeEnds | src/components/FormattedText.jsx:13-18 | Escaping keeps a text's first and last characters, or writes an entity's `&` and `;` in their place. |
| Formatter.BoldSpan | src/components/FormattedText.jsx:49 | `**x**` on one line becomes a `highlight-text theme-bold` strong span around `x`. |
| Formatter.ItalicSpan | src/components/FormattedText.jsx:56 | A whole text `*x*`, where `x` does not start with white space, becomes a `tilt-text` em span. |
| Formatter.InlineCodeSpan | src/components/FormattedText.jsx:59 | `` `x` `` with a non-empty, backtick-free `x` becomes an `inline-code` span. |
| Formatter.InlineFormulaOnce | src/components/FormattedText.jsx:68-70 | `\(x\)` becomes a `formula-inline` span. The later bracket rule leaves that span alone when `x` has no bracket. |
| Formatter.LineBreaks | src/components/FormattedText.jsx:75-87 | After the three line-feed replaces no line feed is left and no three breaks follow each other. What each line feed becomes is stated by `Pipeline.LineBreaksOne` and `Pipeline.LineBreaksRun`. |
| Formatter.LiteralRemoved | src/components/FormattedText.jsx:84 | Replacing every copy of a character by text that lacks it leaves no copy. |
| Formatter.CollapseIsScan | src/components/FormattedText.jsx:87 | The global replace of three or more breaks equals a reference function that shrinks each run to two. |
| Formatter.CollapseNoTriple | src/components/FormattedText.jsx:87 | After the shrinking, three breaks never follow each other anywhere. |
| Patterns.ScanWithoutKey | src/components/FormattedText.jsx:13-87 | Every replace whose pattern needs a character leaves a text without that character unchanged. |
| Patterns.ScanAnchoredLine | src/components/FormattedText.jsx:27-44 | On one line, a `^`-anchored rule rewrites at most the match at the line's start and copies the rest. |
| Patterns.DelimitedIs | src/components/FormattedText.jsx:23-68 | A lazy `open(.*?)close` pattern whose body cannot hold the closer matches exactly up to the first closer. |
| Patterns.ScanLiteralEach | src/components/FormattedText.jsx:13-18 | The global replace of one character equals replacing it character by character. |
| Patterns.ScanLiteralAppend | src/components/FormattedText.jsx:13-18 | A single-character replace works on the two halves of a text separately. |
| Patterns.ScanOnlyKeeps | src/App.jsx:839-847 | A class replace leaves only characters of its replacement, or text characters outside the class. |
| Patterns.ScanCharEach | src/App.jsx:843-846 | The global replace of one character of a class (an emoji, a symbol) equals replacing each character of the class, one by one, and keeping every other character in order. |
| Patterns.ScanOutsideClass | src/App.jsx:843-847 | A class replace leaves a text with no character of the class unchanged. |
| Text.Trim | src/App.jsx:848 | The result is the slice of the text left once the white space at both ends is dropped: only white space lies before and after it, and it starts and ends with something else. It is empty exactly when the text is all white space. |
| Text.SplitJoinLines | src/App.jsx:1329-1330 | Splitting joined lines on `\n` gives the lines back when none holds a line feed. |
| Text.JoinSplitLines | src/App.jsx:1329-1330 | Joining the pieces of a split with `\n` gives the text back. |
| History.Save | src/App.jsx:628-641 | The new entry comes first, with the timestamp as its id and not pinned. The first 49 old entries follow in order. The length is min(old + 1, 50). |
| History.Delete | src/App.jsx:1443-1444 | No entry with the id is left. Every entry with another id is kept. |
| History.DeleteAppend | src/App.jsx:1443-1444 | Deleting distributes over joined pieces, so kept entries stay in their relative order. |
| History.DeleteAbsent | src/App.jsx:1443-1444 | Deleting an id that no entry has returns the history unchanged. |
| History.DeleteTwice | src/App.jsx:1443-1444 | Deleting twice is deleting once. |
| History.DeleteUndoesSave | src/App.jsx:628-641 | Deleting a freshly saved entry by its id restores the history, when the id was new and nothing was dropped. |
| History.Pin | src/App.jsx:1434-1436 | Length and order are kept. `pinned` flips exactly on the entries with the id. Every other field of every entry is unchanged. |
| History.PinTwice | src/App.jsx:1434-1436 | Pinning twice restores the history. |
| History.PinAbsent | src/App.jsx:1434-1436 | Pinning an id that no entry has changes nothing. |
| History.DeletePinned | src/App.jsx:1434-1444 | Pinning does not change what a delete of the same id keeps. |
| History.PinNotice | src/App.jsx:1433-1439 | There is no notice exactly when no entry has the id. The notice is "Entry unpinned" exactly when the first entry with the id was pinned, and "Entry pinned" exactly when it was not. |
| History.PinNoticeFlips | src/App.jsx:1433-1439 | After a pin, the notice for the same id is the other one. |
| History.Keep | src/App.jsx:1399-1418 | The filter keeps each entry as often as it occurs when the test accepts it, and drops it otherwise. |
| History.KeepAppend | src/App.jsx:1399-1418 | Filtering distributes over joined pieces, so kept entries stay in their order. |
| History.KeepAgrees | src/App.jsx:1297-1302 | Two tests that agree on every entry keep the same entries in the same order. |
| History.SortByTime | src/App.jsx:1422-1426 | The result is sorted by timestamp, ascending for `oldest` and descending otherwise, and is a permutation of the input. |
| History.FilteredHistory | src/App.jsx:1393-1429 | The view is sorted in the chosen order. It holds each entry that passes the search (case-insensitive), mode and language filters as often as the history does, and no other entry. |
| History.HandleSearch | src/App.jsx:1288-1306 | A term that is blank once trimmed hides the results and clears them. Any other term shows the entries whose question or one of whose answers contains it, ignoring case, in history order. |
| History.QuickHitMentions | src/App.jsx:1297-1302 | For a non-empty term, skipping empty answers changes no search result. |
| History.SearchMatchesView | src/App.jsx:1288-1429 | The quick search finds the same entries as the history view searching for the same term with its other filters off. |
| Settings.ToggleMode | src/App.jsx:787-792 | The mode's switch is flipped, and a mode without a switch becomes on. No other switch changes. |
| Settings.ToggleTwice | src/App.jsx:787-792 | Toggling a mode twice restores the switches. |
| Settings.ToggleCommutes | src/App.jsx:787-792 | Toggling two different modes in either order gives the same switches. |
| Settings.EffectiveLanguage | src/App.jsx:676-677 | The tag starts with the selected language. It differs from it exactly when casual mode is on and the language is one of the 24 languages the languages table (App.jsx lines 166-212) marks with a casual variant, and then the rest is `_casual`. |
| Settings.BaseOfEffective | src/App.jsx:676-677 | Dropping the casual suffix from the tag gives the selected language back. |
| Settings.RecognitionLanguage | src/App.jsx:942-999 | The if/else chain assigns the table's locale for the 26 named languages, whatever the casual mode, and the code, a dash and the upper-case code otherwise. |
| Settings.LocaleKeepsCode | src/App.jsx:942-999 | `raj` and `hinglish` are recognised as `hi-IN`. Every other language gets its own code followed by a dash. |
| Settings.LocaleOfUnnamed | src/App.jsx:996-999 | An unnamed code `c` gets `c`, a dash and each character of `c` in upper case. |
| Speech.CleanForSpeech | src/App.jsx:823-855 | A missing text gives the empty string. What reaches the speech engine has no `#`, none of `* - + = [ ] ( )` nor the vertical bar, no emoji of the six ranges, and no white space but the plain space. Its value is fixed stage by stage through `Speech.Unmark`, `Speech.StripHashes`, `Speech.Tidy` and `Speech.AddPauses`, and for whole texts by `Speech.CleanHeading`, `Speech.CleanBold` and `Speech.CleanKeepsProse`. |
| Speech.Unmark | src/App.jsx:839-843 | No `#` and no emoji are left; the emoji stage drops exactly the characters of the six ranges and keeps every other character in order. |
| Speech.AddPauses | src/App.jsx:850-852 | Every comma is followed by a space and every other character, full stops included, is kept in order. |
| Speech.StripHashes | src/App.jsx:839-840 | The result is the text read one character at a time with every `#` dropped and every space that directly follows a `#` dropped, all else kept in order. So no `#` is left, and a text without `#` is returned unchanged. |
| Speech.Tidy | src/App.jsx:846-848 | The result is the text's words, the runs of characters that are neither white space nor one of the symbols, in order and joined by single spaces, with nothing before the first or after the last. A text that is already trimmed, with single plain spaces and no symbol, is returned unchanged. |
| Speech.CleanHeading | src/App.jsx:823-855 | A `## ` heading over plain prose is read as the prose alone. |
| Speech.CleanBold | src/App.jsx:823-855 | Plain prose in `**` bold marks is read as the prose alone. |
| Speech.CleanKeepsProse | src/App.jsx:823-855 | Prose of letters, digits, full stops and single inner spaces is read exactly as written. |
| Voices.LocalesOfLanguage | src/App.jsx:1107-1144 | Every locale tried for a language is of that language: for each key of the table but Hinglish its locales all have the key as their code; Hinglish's have `hi` or `en`; a language outside the table gets `en-US`. |
| Voices.VoiceSpeaksSelected | src/App.jsx:1144-1179 | A voice found for the selected language has a locale that starts, ignoring case, with one of the codes that language asks for. |
| Voices.LanguageCode | src/App.jsx:1175 | The code is the prefix of the locale before its first dash. |
| Voices.Select | src/App.jsx:1176-1182 | The filter keeps exactly the voices that pass the test. |
| Voices.SelectFirst | src/App.jsx:1182-1207 | The first voice kept is the first voice in the list that passes the test. |
| Voices.ChooseProperties | src/App.jsx:1183-1207 | Beginner mode takes a female-sounding voice and mastery mode a male-sounding one whenever the tier has one. Other modes take the tier's first voice. |
| Voices.FindVoice | src/App.jsx:1148-1213 | The nested loops with early returns compute `PreferredVoice`. |
| Voices.TierChoice | src/App.jsx:1181-1209 | The inner loop over the five tiers computes the per-locale choice `FromTier`. |
| Voices.FromTierFinds | src/App.jsx:1149-1209 | A locale gets a voice exactly when some voice speaks it, because the last tier accepts every voice. That voice is one of the locale's. |
| Voices.NoVoiceOnlyWhenSilent | src/App.jsx:1174-1212 | The search returns null exactly when no preferred locale is spoken by any voice. |
| Voices.VoiceFromFirstLanguage | src/App.jsx:1174-1212 | A voice found speaks the first preferred locale that has any voice, and it is one of the browser's voices. |
| Voices.FemaleNamesSoundMale | src/App.jsx:1186-1200 | A name containing `female` or `woman` also passes the male test, since it contains `male` or `man`. |
| Topics.TopicOf | src/App.jsx:1332 | The topic is the rest of the line after its number and dot, with the white space at both ends dropped and nothing else. |
| Topics.TopicsOf | src/App.jsx:1330-1332 | Each topic comes from a numbered line, and there are no more topics than lines. |
| Topics.TopicsOfOne | src/App.jsx:1330-1332 | A numbered line gives its topic, and any other line gives none. |
| Topics.TopicsOfAppend | src/App.jsx:1330-1332 | The topics of two runs of lines are those of the first run followed by those of the second, so topics keep the order of their lines and none is skipped. |
| Topics.RelatedTopics | src/App.jsx:1319-1333 | There are at most five topics. A blank question gives none. Otherwise the topics are the first five, or all if fewer, of the topics of the answer's numbered lines, in line order. |
| Topics.RelatedTopicsOfList | src/App.jsx:1319-1333 | An answer that is a numbered list of trimmed one-line topics gives back its first five topics, in order. |
| Topics.RelatedTopicsAfterIntro | src/App.jsx:1319-1333 | Unnumbered lines before such a list, such as an opening sentence, add no topic: the result is still the list's first five topics. |

## Left out

- CleanForSpeech: the markup stages (tags, bold, italic, inline code, fences) are modelled
  regex for regex, but what they leave is stated only for a bold span of plain prose; the hash,
  emoji, tidying and pause stages are stated for every text.
- Case mapping: `toLowerCase` and `toUpperCase` are modelled for ASCII letters only. Other
  characters keep their case.
- Characters: strings are sequences of code points. UTF-16 surrogate pairs are not modelled, so
  the `u` flag of the emoji pattern is taken as read.
- The date and time strings of a history entry (`toLocaleDateString`, `toLocaleTimeString`)
  are left out. They depend on the browser's locale and clock, and no operation reads them.
- I/O and browser objects are left out:
  - storing the history;
  - React state setters and the notifications and their timers;
  - speech synthesis and recognition objects and their events;
  - the AI service call, whose answer is a parameter of `Topics.RelatedTopics`;
  - `transliterate`;
  - `Math.random`.
- The voice list is a parameter of `Voices.FindVoice`; it is whatever the browser reports.
- Utterance rate, pitch and volume are floating point and only assigned, so they are left out.
- History.FilteredHistory: an answer that is `null` would make the source's
  `answer.toLowerCase()` throw. Answers are modelled as strings, so that failure is not
  modelled.
- History.SortByTime: the source's sort is stable. The model's insertion sort is also stable,
  but its contract states only the order and the permutation, not stability.
- History.PinNotice: the source throws a `TypeError` when no entry has the id. The model
  reports this as the absence of a notice.
- Formatter.Format, Speech.CleanForSpeech, Topics.ResponseText: a value that is not a string is
  modelled by the string it shows as (`String(value)`). How each kind of value is shown is not
  modelled. A falsy non-string response (`0`, `false`) is read as that text, not as `''`.
- Format: its own contract states only the shape of the output. Its value is stated by
  `Pipeline.FormatPlainLine`, `Pipeline.FormatLines` and `Pipeline.FormatTwoBullets`, for lines
  without markdown-like notation and for a pair of bullet lines, not for every input.
- HeadingLines, BulletLine, NumberedLine, DefinitionLine: each is stated for a text that is
  that one line. `BlockLines.BlocksLines` carries the result into a longer text when every
  earlier line is closed and holds no "```". After a line that is not closed the line can be swallowed, as
  `BlockLines.BareHeadingTakesNextLine` and `Pipeline.DefinitionTakesBlankLine` show. Closed is a
  sufficient condition, not a characterisation of when a line is rewritten on its own.
- Formatter.Format: the inline rules are modelled exactly, but their properties are proved for
  the spans named in the table (bold, italic, inline code, inline formula), not for every
  mixture of inline notations.
