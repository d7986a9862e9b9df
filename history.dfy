/** The question history kept by the application: saving a new answer set, pinning, deleting,
    the filtered and sorted history view, and the quick search over it. Each operation builds a
    new list from the old one; storing the list and the notifications are not part of it. */
module History {
  import opened Text

  /** One saved question with the answers produced for it, keyed by answer mode. */
  datatype Entry = Entry(
    id: int,
    question: string,
    answers: map<string, string>,
    language: string,
    casualMode: bool,
    timestamp: int,
    pinned: bool)

  /** How many entries the history keeps. */
  const Capacity := 50

  // ---- Saving ----

  /** `saveToHistory`: the new entry, identified by its timestamp and not pinned, goes first;
      the 49 newest old entries follow in their order. */
  function Save(history: seq<Entry>, question: string, answers: map<string, string>,
                language: string, casualMode: bool, timestamp: int): (r: seq<Entry>)
    ensures |r| == Min(|history| + 1, Capacity)
    ensures r[0] == Entry(timestamp, question, answers, language, casualMode, timestamp, false)
    ensures forall i | 1 <= i < |r| :: r[i] == history[i - 1]
  {
    var entry := Entry(timestamp, question, answers, language, casualMode, timestamp, false);
    [entry] + history[..Min(|history|, Capacity - 1)]
  }

  // ---- Deleting ----

  /** `deleteHistoryEntry`: every entry with the id is dropped. */
  function Delete(history: seq<Entry>, id: int): (r: seq<Entry>)
    ensures |r| <= |history|
    ensures forall e | e in r :: e in history && e.id != id
    ensures forall e | e in history && e.id != id :: e in r
  {
    if history == [] then []
    else (if history[0].id == id then [] else [history[0]]) + Delete(history[1..], id)
  }

  /** Deleting from two pieces of the history deletes from each and keeps them in order. */
  lemma {:induction false} DeleteAppend(a: seq<Entry>, b: seq<Entry>, id: int)
    ensures Delete(a + b, id) == Delete(a, id) + Delete(b, id)
    decreases |a|
  {
    if a != [] {
      assert (a + b)[0] == a[0];
      assert (a + b)[1..] == a[1..] + b;
      var head := if a[0].id == id then [] else [a[0]];
      assert Delete(a + b, id) == head + Delete(a[1..] + b, id);
      DeleteAppend(a[1..], b, id);
      assert Delete(a, id) == head + Delete(a[1..], id);
      assert head + (Delete(a[1..], id) + Delete(b, id)) == (head + Delete(a[1..], id)) + Delete(b, id);
    } else {
      assert a + b == b;
    }
  }

  /** Entries with other ids are kept, in their order. */
  lemma {:induction false} DeleteAbsent(history: seq<Entry>, id: int)
    requires forall e | e in history :: e.id != id
    ensures Delete(history, id) == history
    decreases |history|
  {
    if history != [] {
      assert history[0] in history;
      assert forall e | e in history[1..] :: e in history;
      DeleteAbsent(history[1..], id);
    }
  }

  /** Deleting twice is deleting once. */
  lemma DeleteTwice(history: seq<Entry>, id: int)
    ensures Delete(Delete(history, id), id) == Delete(history, id)
  {
    DeleteAbsent(Delete(history, id), id);
  }

  /** Deleting a newly saved entry by its id gives back the old history, when its id was new and
      nothing had to be dropped to make room. */
  lemma DeleteUndoesSave(history: seq<Entry>, question: string, answers: map<string, string>,
                         language: string, casualMode: bool, timestamp: int)
    requires |history| < Capacity
    requires forall e | e in history :: e.id != timestamp
    ensures Delete(Save(history, question, answers, language, casualMode, timestamp), timestamp)
            == history
  {
    var r := Save(history, question, answers, language, casualMode, timestamp);
    assert r == [r[0]] + history by { assert history[..|history|] == history; }
    DeleteAppend([r[0]], history, timestamp);
    DeleteAbsent(history, timestamp);
    assert Delete([r[0]], timestamp) == [] by { assert [r[0]][1..] == []; }
  }

  // ---- Pinning ----

  /** `pinHistoryEntry`: entries with the id have `pinned` flipped, all others are kept. */
  function Pin(history: seq<Entry>, id: int): (r: seq<Entry>)
    ensures |r| == |history|
    ensures forall i | 0 <= i < |r| ::
      r[i].pinned == (if history[i].id == id then !history[i].pinned else history[i].pinned)
    ensures forall i | 0 <= i < |r| :: r[i] == history[i].(pinned := r[i].pinned)
  {
    seq(|history|, i requires 0 <= i < |history| =>
      if history[i].id == id then history[i].(pinned := !history[i].pinned) else history[i])
  }

  /** Pinning twice restores the history. */
  lemma PinTwice(history: seq<Entry>, id: int)
    ensures Pin(Pin(history, id), id) == history
  {
    var r := Pin(Pin(history, id), id);
    forall i | 0 <= i < |history| ensures r[i] == history[i] {
      assert Pin(history, id)[i].id == history[i].id;
    }
  }

  /** Pinning an id that no entry has changes nothing. */
  lemma PinAbsent(history: seq<Entry>, id: int)
    requires forall e | e in history :: e.id != id
    ensures Pin(history, id) == history
  {
    var r := Pin(history, id);
    forall i | 0 <= i < |history| ensures r[i] == history[i] {
      assert history[i] in history;
    }
  }

  /** Pinning does not change which entries a delete of the same id keeps. */
  lemma {:induction false} DeletePinned(history: seq<Entry>, id: int)
    ensures Delete(Pin(history, id), id) == Delete(history, id)
    decreases |history|
  {
    if history != [] {
      var p := Pin(history, id);
      assert p[1..] == Pin(history[1..], id);
      DeletePinned(history[1..], id);
    }
  }

  /** The `i`-th entry is the first with the id. */
  predicate FirstWithId(history: seq<Entry>, id: int, i: nat) {
    i < |history| && history[i].id == id && forall j | 0 <= j < i :: history[j].id != id
  }

  /** The notice shown after pinning, read from the entry as it was before: None where no entry
      has the id (the handler then fails on the missing entry). */
  function PinNotice(history: seq<Entry>, id: int): (r: Option<string>)
    ensures r.None? <==> forall e | e in history :: e.id != id
    ensures r == Some("Entry unpinned") <==>
      exists i: nat | FirstWithId(history, id, i) :: history[i].pinned
    ensures r == Some("Entry pinned") <==>
      exists i: nat | FirstWithId(history, id, i) :: !history[i].pinned
  {
    assert |"Entry unpinned"| != |"Entry pinned"|;
    if history == [] then None
    else if history[0].id == id then
      FirstWithIdHead(history, id);
      Some(if history[0].pinned then "Entry unpinned" else "Entry pinned")
    else
      var r := PinNotice(history[1..], id);
      PinnedShift(history, id);
      r
  }

  /** Behind an entry with another id, the first entry with the id is the one in the rest. */
  lemma PinnedShift(history: seq<Entry>, id: int)
    requires history != [] && history[0].id != id
    ensures (forall e | e in history :: e.id != id) <==> (forall e | e in history[1..] :: e.id != id)
    ensures (exists i: nat | FirstWithId(history[1..], id, i) :: history[1..][i].pinned) <==>
            (exists i: nat | FirstWithId(history, id, i) :: history[i].pinned)
    ensures (exists i: nat | FirstWithId(history[1..], id, i) :: !history[1..][i].pinned) <==>
            (exists i: nat | FirstWithId(history, id, i) :: !history[i].pinned)
  {
    assert forall e | e in history :: e == history[0] || e in history[1..];
    FirstWithIdShift(history, id);
    if exists i: nat | FirstWithId(history, id, i) :: history[i].pinned {
      var i: nat :| FirstWithId(history, id, i) && history[i].pinned;
      assert i != 0;
      assert FirstWithId(history[1..], id, i - 1) && history[1..][i - 1] == history[i];
    }
    if exists i: nat | FirstWithId(history, id, i) :: !history[i].pinned {
      var i: nat :| FirstWithId(history, id, i) && !history[i].pinned;
      assert i != 0;
      assert FirstWithId(history[1..], id, i - 1) && history[1..][i - 1] == history[i];
    }
  }

  /** When the first entry has the id, it is the first with the id. */
  lemma FirstWithIdHead(history: seq<Entry>, id: int)
    requires history != [] && history[0].id == id
    ensures forall i: nat :: FirstWithId(history, id, i) <==> i == 0
  {
  }

  /** Behind an entry with another id, the first entry with the id moves one place on. */
  lemma FirstWithIdShift(history: seq<Entry>, id: int)
    requires history != [] && history[0].id != id
    ensures forall i: nat :: FirstWithId(history[1..], id, i) <==> FirstWithId(history, id, i + 1)
    ensures !FirstWithId(history, id, 0)
  {
    forall i: nat ensures FirstWithId(history[1..], id, i) <==> FirstWithId(history, id, i + 1) {
      if FirstWithId(history[1..], id, i) {
        forall j | 0 <= j < i + 1 ensures history[j].id != id {
          if j > 0 { assert history[j] == history[1..][j - 1]; }
        }
      }
      if FirstWithId(history, id, i + 1) {
        forall j | 0 <= j < i ensures history[1..][j].id != id {
          assert history[1..][j] == history[j + 1];
        }
      }
    }
  }

  /** After a pin, the notice for the same id is the other one. */
  lemma {:induction false} PinNoticeFlips(history: seq<Entry>, id: int)
    ensures PinNotice(history, id) == Some("Entry pinned") <==>
            PinNotice(Pin(history, id), id) == Some("Entry unpinned")
    decreases |history|
  {
    if history != [] && history[0].id != id {
      assert Pin(history, id)[1..] == Pin(history[1..], id);
      PinNoticeFlips(history[1..], id);
    }
  }

  // ---- The history view ----

  /** The history page's controls: search text, answer mode, language and sort order; an empty
      string switches the filter off. */
  datatype View = View(search: string, mode: string, language: string, sortBy: string)
  /** The question or one of the answers contains `term`, ignoring case. */
  predicate Mentions(e: Entry, term: string) {
    || Contains(Lower(e.question), term)
    || exists mode | mode in e.answers :: Contains(Lower(e.answers[mode]), term)
  }

  /** The entry holds a non-empty answer for `mode`. */
  predicate Answered(e: Entry, mode: string) {
    mode in e.answers && e.answers[mode] != ""
  }

  /** `Array.prototype.filter`: each entry is kept as often as it occurs when `p` accepts it and
      dropped otherwise; kept entries stay in their order. */
  function Keep(s: seq<Entry>, p: Entry -> bool): (r: seq<Entry>)
    ensures |r| <= |s|
    ensures forall e :: multiset(r)[e] == if p(e) then multiset(s)[e] else 0
  {
    if s == [] then []
    else
      assert s == [s[0]] + s[1..];
      (if p(s[0]) then [s[0]] else []) + Keep(s[1..], p)
  }

  /** Filtering two runs one after the other filters each in turn: kept entries keep their
      order. */
  lemma {:induction false} KeepAppend(a: seq<Entry>, b: seq<Entry>, p: Entry -> bool)
    ensures Keep(a + b, p) == Keep(a, p) + Keep(b, p)
    decreases |a|
  {
    if a == [] {
      assert a + b == b;
    } else {
      var head := if p(a[0]) then [a[0]] else [];
      assert (a + b)[0] == a[0] && (a + b)[1..] == a[1..] + b;
      assert Keep(a + b, p) == head + Keep(a[1..] + b, p);
      KeepAppend(a[1..], b, p);
      EntriesAssoc(head, Keep(a[1..], p), Keep(b, p));
    }
  }

  lemma EntriesAssoc(x: seq<Entry>, y: seq<Entry>, z: seq<Entry>)
    ensures x + (y + z) == x + y + z
  {
  }

  /** Two tests that agree on every entry keep the same entries. */
  lemma {:induction false} KeepAgrees(s: seq<Entry>, p: Entry -> bool, q: Entry -> bool)
    requires forall e :: p(e) == q(e)
    ensures Keep(s, p) == Keep(s, q)
    decreases |s|
  {
    if s != [] { KeepAgrees(s[1..], p, q); }
  }

  /** `a` may come before `b` in the chosen order of timestamps. */
  predicate InOrder(a: Entry, b: Entry, ascending: bool) {
    if ascending then a.timestamp <= b.timestamp else b.timestamp <= a.timestamp
  }

  predicate Sorted(s: seq<Entry>, ascending: bool) {
    forall i, j | 0 <= i < j < |s| :: InOrder(s[i], s[j], ascending)
  }

  /** `a` may come before every entry of `s`. */
  predicate Leads(a: Entry, s: seq<Entry>, ascending: bool) {
    forall x | x in s :: InOrder(a, x, ascending)
  }

  /** Puts `e` before the first entry it may precede, so that entries with equal timestamps keep
      their order, as the stable `Array.prototype.sort` does. */
  function Insert(e: Entry, s: seq<Entry>, ascending: bool): (r: seq<Entry>)
    ensures multiset(r) == multiset(s) + multiset{e}
  {
    if s == [] then [e]
    else if InOrder(e, s[0], ascending) then [e] + s
    else
      assert s == [s[0]] + s[1..];
      [s[0]] + Insert(e, s[1..], ascending)
  }

  lemma SortedLeads(s: seq<Entry>, ascending: bool)
    requires s != [] && Sorted(s, ascending)
    ensures Leads(s[0], s[1..], ascending)
  {
    forall x | x in s[1..] ensures InOrder(s[0], x, ascending) {
      var k :| 0 <= k < |s[1..]| && s[1..][k] == x;
      assert s[k + 1] == x;
    }
  }

  lemma InsertLeads(a: Entry, e: Entry, s: seq<Entry>, ascending: bool)
    requires Leads(a, s, ascending) && InOrder(a, e, ascending)
    ensures Leads(a, Insert(e, s, ascending), ascending)
  {
    var r := Insert(e, s, ascending);
    forall x | x in r ensures InOrder(a, x, ascending) {
      assert x in multiset(r);
      assert x == e || x in multiset(s);
    }
  }

  /** Inserting into a sorted list keeps it sorted. */
  lemma {:induction false} InsertSorted(e: Entry, s: seq<Entry>, ascending: bool)
    requires Sorted(s, ascending)
    ensures Sorted(Insert(e, s, ascending), ascending)
    decreases |s|
  {
    if s != [] && !InOrder(e, s[0], ascending) {
      var t := Insert(e, s[1..], ascending);
      InsertSorted(e, s[1..], ascending);
      SortedLeads(s, ascending);
      InsertLeads(s[0], e, s[1..], ascending);
      var r := [s[0]] + t;
      forall i, j | 0 <= i < j < |r| ensures InOrder(r[i], r[j], ascending) {
        assert r[j] == t[j - 1];
        if i == 0 { assert t[j - 1] in t; } else { assert r[i] == t[i - 1]; }
      }
    }
  }

  /** The sort of the history view by timestamp. */
  function SortByTime(s: seq<Entry>, ascending: bool): (r: seq<Entry>)
    ensures Sorted(r, ascending)
    ensures multiset(r) == multiset(s)
  {
    if s == [] then []
    else
      assert s == [s[0]] + s[1..];
      var t := SortByTime(s[1..], ascending);
      InsertSorted(s[0], t, ascending);
      Insert(s[0], t, ascending)
  }

  /** Whether the view shows an entry: each filter that is on must accept it. */
  predicate Shown(e: Entry, view: View) {
    && (view.search != "" ==> Mentions(e, Lower(view.search)))
    && (view.mode != "" ==> Answered(e, view.mode))
    && (view.language != "" ==> e.language == view.language)
  }

  function SearchStage(history: seq<Entry>, search: string): (r: seq<Entry>)
    ensures forall e :: multiset(r)[e] == if search == "" || Mentions(e, Lower(search)) then multiset(history)[e] else 0
  {
    var term := Lower(search);
    if search != "" then Keep(history, (e: Entry) => Mentions(e, term)) else history
  }

  function ModeStage(history: seq<Entry>, mode: string): (r: seq<Entry>)
    ensures forall e :: multiset(r)[e] == if mode == "" || Answered(e, mode) then multiset(history)[e] else 0
  {
    if mode != "" then Keep(history, (e: Entry) => Answered(e, mode)) else history
  }

  function LanguageStage(history: seq<Entry>, language: string): (r: seq<Entry>)
    ensures forall e :: multiset(r)[e] == if language == "" || e.language == language then multiset(history)[e] else 0
  {
    if language != "" then Keep(history, (e: Entry) => e.language == language) else history
  }

  /** `filteredHistory`: the search, mode and language filters in turn, then the sort, oldest
      first when asked for and newest first otherwise. The view holds exactly the entries that
      every filter that is on accepts, each as often as the history holds it, in order of time. */
  function FilteredHistory(history: seq<Entry>, view: View): (r: seq<Entry>)
    ensures Sorted(r, view.sortBy == "oldest")
    ensures forall e :: multiset(r)[e] == if Shown(e, view) then multiset(history)[e] else 0
    ensures forall e :: e in r <==> e in history && Shown(e, view)
  {
    var a := SearchStage(history, view.search);
    var b := ModeStage(a, view.mode);
    var c := LanguageStage(b, view.language);
    SortByTime(c, view.sortBy == "oldest")
  }

  // ---- Quick search ----

  /** What `handleSearch` leaves in the search state: the results and whether they are shown. */
  datatype Search = Search(results: seq<Entry>, shown: bool)

  /** The quick search's test: the question or a non-empty answer contains `term`. */
  predicate QuickHit(e: Entry, term: string) {
    || Contains(Lower(e.question), term)
    || exists mode | mode in e.answers :: e.answers[mode] != "" && Contains(Lower(e.answers[mode]), term)
  }

  /** `handleSearch`: a term that is blank once trimmed clears and hides the results; any other
      term, untrimmed and ignoring case, selects the entries that mention it, in history order. */
  function HandleSearch(history: seq<Entry>, term: string): (r: Search)
    ensures r.shown <==> Trim(term) != ""
    ensures !r.shown ==> r.results == []
    ensures r.shown ==> r.results == Keep(history, (e: Entry) => Mentions(e, Lower(term)))
    ensures r.shown ==> forall e :: multiset(r.results)[e] == if Mentions(e, Lower(term)) then multiset(history)[e] else 0
  {
    if Trim(term) == "" then Search([], false)
    else
      var t := Lower(term);
      TrimNotEmpty(term);
      QuickHitMentions(t);
      KeepAgrees(history, (e: Entry) => QuickHit(e, t), (e: Entry) => Mentions(e, t));
      Search(Keep(history, (e: Entry) => QuickHit(e, t)), true)
  }

  /** For a non-empty term, skipping empty answers changes nothing: they contain no such term. */
  lemma QuickHitMentions(t: string)
    requires t != []
    ensures forall e :: QuickHit(e, t) == Mentions(e, t)
  {
    forall e ensures QuickHit(e, t) == Mentions(e, t) {
      if Mentions(e, t) && !Contains(Lower(e.question), t) {
        var mode :| mode in e.answers && Contains(Lower(e.answers[mode]), t);
        if e.answers[mode] == "" { NothingInEmpty(t); }
      }
    }
  }

  lemma TrimNotEmpty(s: string)
    requires Trim(s) != ""
    ensures s != [] && Lower(s) != []
  {
  }

  lemma NothingInEmpty(t: string)
    requires t != []
    ensures !Contains(Lower(""), t)
  {
  }

  /** The quick search finds the same entries as the history view searching for the same term
      with its other filters off; only the order differs. */
  lemma SearchMatchesView(history: seq<Entry>, term: string, sortBy: string)
    requires Trim(term) != ""
    ensures multiset(HandleSearch(history, term).results) ==
            multiset(FilteredHistory(history, View(term, "", "", sortBy)))
  {
    TrimNotEmpty(term);
    var a := HandleSearch(history, term).results;
    var b := FilteredHistory(history, View(term, "", "", sortBy));
    forall e ensures multiset(a)[e] == multiset(b)[e] {
      assert Shown(e, View(term, "", "", sortBy)) == Mentions(e, Lower(term));
    }
  }
}
