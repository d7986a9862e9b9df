/** The related-topics list read off an answer: the answer's numbered lines, without their
    numbers, at most five of them. */
module Topics {
  import opened Text

  /** How many related topics are kept. */
  const MaxTopics := 5

  /** The line starts with digits and a full stop (`/^\d+\./`). */
  predicate Numbered(line: string) {
    var d := Span(line, 0, Digit);
    0 < d < |line| && line[d] == '.'
  }

  /** The topic on a numbered line: the digits, the full stop and the white space after it are
      dropped (the pattern `^\d+\.\s*`), and what is left is trimmed: the topic is the part of
      the line after the full stop with only white space dropped around it. */
  function TopicOf(line: string): (r: string)
    requires Numbered(line)
    ensures r == [] || (!IsSpace(r[0]) && !IsSpace(r[|r| - 1]))
    ensures exists a: nat, b: nat | TrimsTo(line, Span(line, 0, Digit) + 1, a, b) :: r == line[a..b]
  {
    var d := Span(line, 0, Digit);
    var k := Span(line, d + 1, Space);
    var r := Trim(line[k..]);
    var a: nat, b: nat :| TrimsTo(line[k..], 0, a, b) && r == line[k..][a..b];
    SliceOfSlice(line, k, a, b);
    TrimsInside(line, d + 1, k, a, b);
    r
  }

  lemma SliceOfSlice(s: string, k: nat, a: nat, b: nat)
    requires k <= |s| && a <= b <= |s| - k
    ensures s[k..][a..b] == s[k + a..k + b]
  {
  }

  /** White space from `lo` to `k`, then a trim of the rest, is a trim from `lo`. */
  lemma TrimsInside(s: string, lo: nat, k: nat, a: nat, b: nat)
    requires lo <= k <= |s| && forall i | lo <= i < k :: IsSpace(s[i])
    requires TrimsTo(s[k..], 0, a, b)
    ensures TrimsTo(s, lo, k + a, k + b)
  {
    forall i | k <= i < |s| ensures s[i] == s[k..][i - k] {}
  }

  /** The topics of the numbered lines, in order; other lines are skipped. */
  function TopicsOf(lines: seq<string>): (r: seq<string>)
    ensures |r| <= |lines|
    ensures forall t | t in r :: exists line | line in lines && Numbered(line) :: t == TopicOf(line)
  {
    if lines == [] then []
    else
      var rest := TopicsOf(lines[1..]);
      assert forall line | line in lines[1..] :: line in lines;
      (if Numbered(lines[0]) then [TopicOf(lines[0])] else []) + rest
  }

  /** A numbered line gives its topic and any other line none. */
  lemma TopicsOfOne(line: string)
    ensures Numbered(line) ==> TopicsOf([line]) == [TopicOf(line)]
    ensures !Numbered(line) ==> TopicsOf([line]) == []
  {
    assert [line][1..] == [];
  }

  /** The topics of two runs of lines are those of the first run followed by those of the
      second: topics keep the order of their lines. */
  lemma {:induction false} TopicsOfAppend(a: seq<string>, b: seq<string>)
    ensures TopicsOf(a + b) == TopicsOf(a) + TopicsOf(b)
    decreases |a|
  {
    if a != [] {
      var head := if Numbered(a[0]) then [TopicOf(a[0])] else [];
      assert (a + b)[0] == a[0] && (a + b)[1..] == a[1..] + b;
      assert TopicsOf(a + b) == head + TopicsOf(a[1..] + b);
      assert TopicsOf(a) == head + TopicsOf(a[1..]);
      TopicsOfAppend(a[1..], b);
    } else {
      assert a + b == b;
    }
  }

  /** `String(response || '')`: an answer that is missing reads as the empty string. */
  function ResponseText(response: Input): (r: string)
    ensures response.Missing? ==> r == ""
  {
    match response
    case Missing => ""
    case Str(s) => s
    case Other(shown) => shown
  }

  /** `generateRelatedTopics` once the answer is in: nothing for a blank question, and otherwise
      the topics of the answer's numbered lines in the order they come, the first five of
      them. */
  function RelatedTopics(question: string, response: Input): (r: seq<string>)
    ensures |r| <= MaxTopics
    ensures Trim(question) == "" ==> r == []
    ensures Trim(question) != "" ==>
      var all := TopicsOf(SplitLines(ResponseText(response)));
      r == all[..Min(|all|, MaxTopics)]
    ensures forall t | t in r ::
      exists line | line in SplitLines(ResponseText(response)) && Numbered(line) :: t == TopicOf(line)
  {
    if Trim(question) == "" then []
    else
      var all := TopicsOf(SplitLines(ResponseText(response)));
      assert forall t | t in all[..Min(|all|, MaxTopics)] :: t in all;
      all[..Min(|all|, MaxTopics)]
  }

  // ---- Reading back a numbered list ----

  /** A line `n. x`, for digits `n` and a trimmed one-line `x`. */
  function ListLine(n: string, x: string): string { n + ". " + x }

  predicate ListItem(n: string, x: string) {
    n != [] && AllDigits(n) && '\n' !in x && Trim(x) == x
  }

  /** The topic of a list line is its text. */
  lemma TopicOfListLine(n: string, x: string)
    requires ListItem(n, x)
    ensures Numbered(ListLine(n, x))
    ensures TopicOf(ListLine(n, x)) == x
  {
    var line := ListLine(n, x);
    assert line[|n|] == '.' && line[|n| + 1] == ' ';
    forall m | 0 <= m < |n| ensures IsDigit(line[m]) { assert line[m] == n[m]; }
    SpanIs(line, 0, |n|, Digit);
    assert line[|n| + 2..] == x;
    if x != [] {
      assert !IsSpace(x[0]);
      assert line[|n| + 2] == x[0];
    }
    SpanIs(line, |n| + 1, |n| + 2, Space);
  }

  function ListLines(ns: seq<string>, xs: seq<string>): (r: seq<string>)
    requires |ns| == |xs|
    ensures |r| == |xs|
    ensures forall i | 0 <= i < |r| :: r[i] == ListLine(ns[i], xs[i])
  {
    if xs == [] then [] else [ListLine(ns[0], xs[0])] + ListLines(ns[1..], xs[1..])
  }

  /** The topics of a numbered list are its texts. */
  lemma {:induction false} TopicsOfList(ns: seq<string>, xs: seq<string>)
    requires |ns| == |xs|
    requires forall i | 0 <= i < |xs| :: ListItem(ns[i], xs[i])
    ensures TopicsOf(ListLines(ns, xs)) == xs
    decreases |xs|
  {
    if xs != [] {
      var lines := ListLines(ns, xs);
      TopicOfListLine(ns[0], xs[0]);
      assert lines[0] == ListLine(ns[0], xs[0]);
      assert lines[1..] == ListLines(ns[1..], xs[1..]);
      TopicsOfList(ns[1..], xs[1..]);
      TopicsOfNumbered(lines);
      assert xs == [xs[0]] + xs[1..];
    }
  }

  /** A numbered first line puts its topic first. */
  lemma TopicsOfNumbered(lines: seq<string>)
    requires lines != [] && Numbered(lines[0])
    ensures TopicsOf(lines) == [TopicOf(lines[0])] + TopicsOf(lines[1..])
  {
  }

  /** An answer that is a numbered list of topics, one per line, gives back the first five
      topics. */
  lemma RelatedTopicsOfList(question: string, ns: seq<string>, xs: seq<string>)
    requires Trim(question) != ""
    requires |ns| == |xs| >= 1
    requires forall i | 0 <= i < |xs| :: ListItem(ns[i], xs[i])
    ensures RelatedTopics(question, Str(JoinLines(ListLines(ns, xs)))) == xs[..Min(|xs|, MaxTopics)]
  {
    ListLinesOneEach(ns, xs);
    SplitJoinLines(ListLines(ns, xs));
    TopicsOfList(ns, xs);
  }

  /** Lines before the list that are not numbered, such as an opening sentence, add no topic. */
  lemma RelatedTopicsAfterIntro(question: string, intro: seq<string>, ns: seq<string>,
                                xs: seq<string>)
    requires Trim(question) != ""
    requires |intro| >= 1 && forall i | 0 <= i < |intro| :: '\n' !in intro[i] && !Numbered(intro[i])
    requires |ns| == |xs| >= 1
    requires forall i | 0 <= i < |xs| :: ListItem(ns[i], xs[i])
    ensures RelatedTopics(question, Str(JoinLines(intro) + "\n" + JoinLines(ListLines(ns, xs))))
            == xs[..Min(|xs|, MaxTopics)]
  {
    var lines := ListLines(ns, xs);
    var text := JoinLines(intro) + "\n" + JoinLines(lines);
    ListLinesOneEach(ns, xs);
    TopicsOfLines(intro, lines);
    NoTopics(intro);
    TopicsOfList(ns, xs);
    assert ResponseText(Str(text)) == text;
    assert TopicsOf(SplitLines(text)) == [] + xs == xs;
  }

  /** The topics of lines joined after other lines are those of both runs in turn. */
  lemma TopicsOfLines(a: seq<string>, b: seq<string>)
    requires |a| >= 1 && |b| >= 1
    requires forall i | 0 <= i < |a| :: '\n' !in a[i]
    requires forall i | 0 <= i < |b| :: '\n' !in b[i]
    ensures TopicsOf(SplitLines(JoinLines(a) + "\n" + JoinLines(b))) == TopicsOf(a) + TopicsOf(b)
  {
    JoinAppend(a, b);
    assert forall i | 0 <= i < |a + b| :: (a + b)[i] == if i < |a| then a[i] else b[i - |a|];
    SplitJoinLines(a + b);
    TopicsOfAppend(a, b);
  }

  /** List lines hold no line feed. */
  lemma ListLinesOneEach(ns: seq<string>, xs: seq<string>)
    requires |ns| == |xs|
    requires forall i | 0 <= i < |xs| :: ListItem(ns[i], xs[i])
    ensures forall i | 0 <= i < |xs| :: '\n' !in ListLines(ns, xs)[i]
  {
    var lines := ListLines(ns, xs);
    forall i | 0 <= i < |lines| ensures '\n' !in lines[i] {
      assert lines[i] == ns[i] + ". " + xs[i];
      assert '\n' !in ns[i] by {
        forall m | 0 <= m < |ns[i]| ensures ns[i][m] != '\n' { assert IsDigit(ns[i][m]); }
      }
    }
  }

  /** Joining two runs of lines puts a line feed between them. */
  lemma {:induction false} JoinAppend(a: seq<string>, b: seq<string>)
    requires |a| >= 1 && |b| >= 1
    ensures JoinLines(a + b) == JoinLines(a) + "\n" + JoinLines(b)
    decreases |a|
  {
    assert (a + b)[0] == a[0] && (a + b)[1..] == a[1..] + b;
    if |a| > 1 { JoinAppend(a[1..], b); }
  }

  /** Lines none of which is numbered give no topic. */
  lemma {:induction false} NoTopics(lines: seq<string>)
    requires forall i | 0 <= i < |lines| :: !Numbered(lines[i])
    ensures TopicsOf(lines) == []
    decreases |lines|
  {
    if lines != [] { NoTopics(lines[1..]); }
  }
}
